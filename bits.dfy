/**
 * Fixed-width unsigned integers and the bitwise operations the simulator
 * performs on them, stated over unbounded integers.
 *
 * The simulator works on `unsigned char` bytes, `unsigned int` counters and
 * `unsigned long` (64-bit) tags and addresses. Here each width is a subset of
 * `int`; a left shift that can carry bits out of the word is reduced modulo
 * 2^64 explicitly, and `&` and `|` are defined bit by bit.
 */
module Bits {

  const U8_MOD: nat := 0x100
  const U32_MOD: nat := 0x1_0000_0000
  const U64_MOD: nat := 0x1_0000_0000_0000_0000

  type u8 = x: int | 0 <= x < 0x100
  type u32 = x: int | 0 <= x < 0x1_0000_0000
  type u64 = x: int | 0 <= x < 0x1_0000_0000_0000_0000

  /** 2 to the power n. */
  function Pow2(n: nat): (r: nat)
    ensures r >= 1
  {
    if n == 0 then 1 else 2 * Pow2(n - 1)
  }

  lemma {:induction false} Pow2Add(m: nat, n: nat)
    ensures Pow2(m + n) == Pow2(m) * Pow2(n)
  {
    if m > 0 {
      Pow2Add(m - 1, n);
      assert Pow2(m + n) == 2 * Pow2(m - 1 + n);
    }
  }

  lemma {:induction false} Pow2Monotone(m: nat, n: nat)
    requires m <= n
    ensures Pow2(m) <= Pow2(n)
  {
    if m < n {
      Pow2Monotone(m, n - 1);
    }
  }

  /** 2^8 is the number of byte values. */
  lemma Pow2Byte()
    ensures Pow2(8) == U8_MOD
  {
    assert Pow2(2) == 4 by { Pow2Add(1, 1); }
    assert Pow2(4) == 16 by { Pow2Add(2, 2); }
    Pow2Add(4, 4);
  }

  /** 2^32 is the number of 32-bit word values. */
  lemma Pow2Word32()
    ensures Pow2(32) == U32_MOD
  {
    Pow2Byte();
    assert Pow2(16) == 65536 by { Pow2Add(8, 8); }
    Pow2Add(16, 16);
  }

  /** 2^64 is the number of 64-bit word values. */
  lemma Pow2Word64()
    ensures Pow2(64) == U64_MOD
  {
    Pow2Word32();
    Pow2Add(32, 32);
  }

  // ---------------------------------------------------------------------
  // Bitwise operations on non-negative integers

  /** Bitwise AND, one bit at a time from the least significant bit. */
  function And(x: nat, y: nat): nat
    decreases x
  {
    if x == 0 || y == 0 then 0
    else 2 * And(x / 2, y / 2) + (if x % 2 == 1 && y % 2 == 1 then 1 else 0)
  }

  /** Bitwise OR, one bit at a time from the least significant bit. */
  function Or(x: nat, y: nat): nat
    decreases x
  {
    if x == 0 then y
    else if y == 0 then x
    else 2 * Or(x / 2, y / 2) + (if x % 2 == 1 || y % 2 == 1 then 1 else 0)
  }

  /** `x << n` on a 64-bit word: bits shifted past bit 63 are lost. */
  function Shl(x: nat, n: nat): nat
  {
    (x * Pow2(n)) % U64_MOD
  }

  /** `x >> n` on an unsigned word. */
  function Shr(x: nat, n: nat): nat
  {
    DivNonNegative(x, Pow2(n));
    x / Pow2(n)
  }

  // ---------------------------------------------------------------------
  // Division facts

  lemma MulMonotone(a: int, b: int, c: nat)
    requires a <= b
    ensures a * c <= b * c
  {
  }

  lemma DivMod(x: int, d: int)
    requires d > 0
    ensures x == (x / d) * d + x % d && 0 <= x % d < d
  {
  }

  lemma MulAssociates(a: int, b: int, c: int)
    ensures (a * b) * c == a * (b * c)
  {
  }

  lemma MulAtLeast(k: int, d: int)
    requires k >= 1 && d > 0
    ensures k * d >= d
  {
  }

  /** Quotient and remainder are determined by `x == q * d + r` with `0 <= r < d`. */
  lemma DivModUnique(x: int, d: int, q: int, r: int)
    requires 0 < d && 0 <= r < d && x == q * d + r
    ensures x / d == q && x % d == r
  {
    var q', r' := x / d, x % d;
    assert (q - q') * d == r' - r;
    if q' < q {
      MulAtLeast(q - q', d);
    } else if q' > q {
      MulAtLeast(q' - q, d);
    }
  }

  /** Splitting a remainder modulo `a * c` into its low part modulo `a` and the digit above it. */
  lemma ModSplit(x: nat, a: nat, c: nat)
    requires a > 0 && c > 0
    ensures x % (a * c) == x % a + a * ((x / a) % c)
    ensures (x % (a * c)) / a == (x / a) % c
    ensures x / (a * c) == (x / a) / c
  {
    var q1, r1 := x / a, x % a;
    var q2, r2 := q1 / c, q1 % c;
    assert x == q1 * a + r1;
    assert q1 == q2 * c + r2;
    assert x == q2 * (a * c) + (r2 * a + r1);
    assert r2 * a + r1 < a * c by {
      assert r2 * a <= (c - 1) * a;
    }
    DivModUnique(x, a * c, q2, r2 * a + r1);
    DivModUnique(r2 * a + r1, a, r2, r1);
  }

  /** A value is its quotient by `a * c`, then the digit `(x / a) % c` scaled by `a`, then its remainder modulo `a`. */
  lemma DivModSplit(x: nat, a: nat, c: nat)
    requires a > 0 && c > 0
    ensures x == (x / (a * c)) * (a * c) + ((x / a) % c) * a + x % a
  {
    ModSplit(x, a, c);
    DivMod(x, a * c);
    var d := (x / a) % c;
    assert a * d == d * a;
  }

  /** x split by a and by q = a * c into its quotient by q, the middle digit and the remainder by a. */
  lemma DivModDigits(x: nat, a: nat, c: nat, q: nat)
    requires a > 0 && c > 0 && q == a * c
    ensures x % a < a && (x % q) / a < c && x / q <= x
    ensures x == (x / q) * q + ((x % q) / a) * a + x % a
  {
    ModSplit(x, a, c);
    DivModSplit(x, a, c);
    DivAtMost(x, q);
  }

  /** The quotient of a natural number by a positive one is a natural number. */
  lemma DivNonNegative(x: nat, d: nat)
    requires d > 0
    ensures x / d >= 0
  {
  }

  /** Dividing by a positive number never increases a natural number. */
  lemma DivAtMost(x: nat, d: nat)
    requires d > 0
    ensures x / d <= x
  {
    DivMod(x, d);
    if x / d > 0 {
      MulAtLeast(d, x / d);
    }
  }

  /** ANDing with an odd mask keeps the low bit and ANDs the rest with the mask's upper bits. */
  lemma AndOddMask(x: nat, m: nat)
    requires x > 0 && m % 2 == 1
    ensures And(x, m) == 2 * And(x / 2, m / 2) + x % 2
  {
  }

  /** ANDing with the mask of the n low bits keeps the value modulo 2^n. */
  lemma {:induction false} AndLowMask(x: nat, n: nat)
    ensures And(x, Pow2(n) - 1) == x % Pow2(n)
  {
    if n > 0 && x > 0 {
      var p, q := Pow2(n - 1), Pow2(n);
      assert q == 2 * p;
      DivModUnique(q - 1, 2, p - 1, 1);
      AndOddMask(x, q - 1);
      assert And(x, q - 1) == 2 * And(x / 2, p - 1) + x % 2;
      AndLowMask(x / 2, n - 1);
      assert And(x / 2, p - 1) == (x / 2) % p;
      ModSplit(x, 2, p);
      assert x % q == x % 2 + 2 * ((x / 2) % p);
    } else if n == 0 {
      assert Pow2(n) == 1;
      DivModUnique(x, 1, x, 0);
    } else {
      DivModUnique(0, Pow2(n), 0, 0);
    }
  }

  /** ORing a value below 2^n with a multiple of 2^n is adding them. */
  lemma {:induction false} OrDisjoint(x: nat, c: nat, n: nat)
    requires x < Pow2(n)
    ensures Or(x, c * Pow2(n)) == x + c * Pow2(n)
  {
    if n > 0 && x > 0 && c > 0 {
      var y := c * Pow2(n);
      assert y == 2 * (c * Pow2(n - 1));
      assert y / 2 == c * Pow2(n - 1) && y % 2 == 0;
      OrDisjoint(x / 2, c, n - 1);
    }
  }

  /** Adding to a value already reduced modulo m is adding before reducing. */
  lemma ModAdd(a: nat, d: nat, m: nat)
    requires m > 0
    ensures (a % m + d) % m == (a + d) % m
  {
    DivMod(a, m);
    DivMod(a % m + d, m);
    var q := a / m + (a % m + d) / m;
    assert a + d == q * m + (a % m + d) % m;
    DivModUnique(a + d, m, q, (a % m + d) % m);
  }

  /** Every power of two below the word width fits the word. */
  lemma Pow2BelowWord(n: nat)
    requires n < 64
    ensures Pow2(n) < U64_MOD
  {
    Pow2Monotone(n + 1, 64);
    Pow2Word64();
  }

  /** 1 shifted left n times in a 64-bit word: 2^n, or 0 once the bit has left the word. */
  function WordBit(n: nat): u64
  {
    if n < 64 then Pow2BelowWord(n); Pow2(n) else 0
  }

  /** One more shift by one bit moves the bit up one place, or out of the word. */
  lemma ShlWordBit(n: nat)
    ensures Shl(WordBit(n), 1) == WordBit(n + 1)
  {
    assert Pow2(1) == 2;
    if n < 63 {
      Pow2BelowWord(n + 1);
      DivModUnique(Pow2(n + 1), U64_MOD, 0, Pow2(n + 1));
    } else if n == 63 {
      Pow2Word64();
      DivModUnique(Pow2(64), U64_MOD, 1, 0);
    }
  }
}
