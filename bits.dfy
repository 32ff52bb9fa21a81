/** The C integer operators that test_dma.c applies to unsigned values,
    stated on natural numbers: shifts, masks, bitwise OR and the conversion
    to a narrower unsigned type. `BitAnd` and `BitOr` are defined bit by bit,
    and the lemmas below connect them to ordinary arithmetic. */
module Bits {

  type U8 = x: nat | x < 0x100
  type U16 = x: nat | x < 0x1_0000
  type U32 = x: nat | x < 0x1_0000_0000
  type U64 = x: nat | x < 0x1_0000_0000_0000_0000

  /** 2 to the power k. */
  function Pow2(k: nat): (r: nat)
    ensures r >= 1
  {
    if k == 0 then 1 else 2 * Pow2(k - 1)
  }

  /** `x << k`, before the result is stored into a type of fixed width. */
  function Shl(x: nat, k: nat): nat
  {
    x * Pow2(k)
  }

  /** `x >> k` on an unsigned value: k halvings. */
  function Shr(x: nat, k: nat): nat
  {
    if k == 0 then x else Shr(x / 2, k - 1)
  }

  /** Conversion of a non-negative value to an unsigned C type of `w` bits:
      the low `w` bits are kept. */
  function Trunc(x: nat, w: nat): (r: nat)
    ensures r < Pow2(w)
    ensures x < Pow2(w) ==> r == x
  {
    if x < Pow2(w) then
      DivModUnique(x, Pow2(w), 0, x);
      x
    else x % Pow2(w)
  }

  /** The conversion keeps the remainder modulo 2^w. */
  lemma TruncIsMod(x: nat, w: nat)
    ensures Trunc(x, w) == x % Pow2(w)
  {
    if x < Pow2(w) {
      DivModUnique(x, Pow2(w), 0, x);
    }
  }

  /** Bitwise AND, one bit at a time from the least significant. */
  function BitAnd(a: nat, b: nat): nat
  {
    if a == 0 || b == 0 then 0
    else 2 * BitAnd(a / 2, b / 2) + (if a % 2 == 1 && b % 2 == 1 then 1 else 0)
  }

  /** Bitwise OR, one bit at a time from the least significant. */
  function BitOr(a: nat, b: nat): nat
  {
    if a == 0 then b
    else if b == 0 then a
    else 2 * BitOr(a / 2, b / 2) + (if a % 2 == 1 || b % 2 == 1 then 1 else 0)
  }

  lemma {:induction false} Pow2Add(a: nat, b: nat)
    ensures Pow2(a + b) == Pow2(a) * Pow2(b)
  {
    if b > 0 {
      Pow2Add(a, b - 1);
      calc {
        Pow2(a + b);
        2 * Pow2(a + b - 1);
        2 * (Pow2(a) * Pow2(b - 1));
        Pow2(a) * (2 * Pow2(b - 1));
        Pow2(a) * Pow2(b);
      }
    }
  }

  /** 2^32 and 2^64, the ranges of `uint32_t` and `uint64_t`. */
  lemma Pow2Of32()
    ensures Pow2(32) == 0x1_0000_0000
  {
    assert Pow2(8) == 256;
    Pow2Add(8, 8);
    Pow2Add(16, 16);
  }

  lemma Pow2Of64()
    ensures Pow2(64) == 0x1_0000_0000_0000_0000
  {
    Pow2Of32();
    Pow2Add(32, 32);
  }

  lemma {:induction false} Pow2Monotone(a: nat, b: nat)
    requires a <= b
    ensures Pow2(a) <= Pow2(b)
  {
    if a < b {
      Pow2Monotone(a, b - 1);
    }
  }

  lemma MulLeft(a: int, b: int, c: int)
    ensures a * (b * c) == b * (a * c)
  {
  }

  /** Division and remainder are determined by any decomposition
      `x == d * q + r` with `0 <= r < d`. */
  lemma DivModUnique(x: int, d: int, q: int, r: int)
    requires d > 0 && 0 <= r < d && x == d * q + r
    ensures x / d == q && x % d == r
  {
    var q', r' := x / d, x % d;
    assert d * (q' - q) == r - r';
    if q' > q {
      MulAtLeast(d, q' - q);
    } else if q' < q {
      MulAtLeast(d, q - q');
    }
  }

  lemma {:induction false} MulAtLeast(d: nat, n: int)
    requires n >= 1
    ensures d * n >= d
    decreases n
  {
    if n > 1 {
      MulAtLeast(d, n - 1);
      assert d * n == d * (n - 1) + d;
    }
  }

  /** Reducing modulo a multiple of m first does not change the remainder
      modulo m. */
  lemma ModOfMultiple(x: nat, m: nat, n: nat)
    requires m > 0 && n > 0
    ensures (x % (m * n)) % m == x % m
  {
    var q, r := x / (m * n), x % (m * n);
    assert x == (m * n) * q + r;
    MulLeft(m, n, q);
    assert x == m * (n * q + r / m) + r % m;
    DivModUnique(x, m, n * q + r / m, r % m);
  }

  /** Adding whole multiples of m does not change the remainder modulo m. */
  lemma ModAddMultiple(a: nat, k: nat, m: nat)
    requires m > 0
    ensures (a + k * m) % m == a % m
  {
    assert a + k * m == m * (a / m + k) + a % m;
    DivModUnique(a + k * m, m, a / m + k, a % m);
  }

  /** Dividing `a + 256 * rest` (with `a` a byte) by `256 * p` drops the byte
      and divides `rest` by `p`. */
  lemma DivDropByte(a: nat, rest: nat, p: nat)
    requires a < 256 && p > 0
    ensures (a + 256 * rest) / (256 * p) == rest / p
  {
    var q, r := rest / p, rest % p;
    assert rest == p * q + r;
    MulLeft(256, p, q);
    assert a + 256 * rest == (256 * p) * q + (a + 256 * r);
    DivModUnique(a + 256 * rest, 256 * p, q, a + 256 * r);
  }

  /** ORing a byte shifted left by k into a value below 2^k, inside a
      w-bit variable: `(v | ((uintW_t)b << k))` is `v + b * 2^k`, and nothing
      is lost to the width. */
  lemma OrShiftedByte(v: nat, b: nat, k: nat, w: nat)
    requires v < Pow2(k) && b < 256 && k + 8 <= w
    ensures Trunc(BitOr(v, Trunc(Shl(b, k), w)), w) == v + Shl(b, k)
    ensures v + Shl(b, k) < Pow2(k + 8)
  {
    Pow2Add(8, k);
    assert Pow2(8) == 256;
    Pow2Monotone(k + 8, w);
    var p := Pow2(k);
    assert Shl(b, k) == b * p;
    assert b * p <= 255 * p;
    assert v + b * p < 256 * p;
    BitOrDisjoint(v, b, k);
  }

  /** Taking the remainder by 2p is taking the low bit and the remainder of
      the rest by p. */
  lemma ModDoubleStep(a: nat, p: nat)
    requires p >= 1
    ensures a % (2 * p) == 2 * ((a / 2) % p) + a % 2
  {
    var q, t := (a / 2) / p, (a / 2) % p;
    assert a / 2 == p * q + t;
    assert a == (2 * p) * q + (2 * t + a % 2);
    DivModUnique(a, 2 * p, q, 2 * t + a % 2);
  }

  /** Dividing by 2p is halving, then dividing by p. */
  lemma DivDoubleStep(a: nat, p: nat)
    requires p >= 1
    ensures a / (2 * p) == (a / 2) / p
  {
    var q, t := (a / 2) / p, (a / 2) % p;
    assert a / 2 == p * q + t;
    assert a == (2 * p) * q + (2 * t + a % 2);
    DivModUnique(a, 2 * p, q, 2 * t + a % 2);
  }

  /** Shifting right by k divides by 2^k. */
  lemma {:induction false} ShrIsDiv(x: nat, k: nat)
    ensures Shr(x, k) == x / Pow2(k)
  {
    if k > 0 {
      ShrIsDiv(x / 2, k - 1);
      DivDoubleStep(x, Pow2(k - 1));
    }
  }

  /** Masking with 2^k - 1 keeps the low k bits: `a & (2^k - 1) == a % 2^k`. */
  lemma {:induction false} BitAndLowMask(a: nat, k: nat)
    ensures BitAnd(a, Pow2(k) - 1) == a % Pow2(k)
  {
    if k == 0 {
      assert Pow2(k) - 1 == 0;
    } else if a == 0 {
      DivModUnique(0, Pow2(k), 0, 0);
    } else {
      var p := Pow2(k - 1);
      var m := 2 * p - 1;
      assert Pow2(k) - 1 == m;
      assert m / 2 == p - 1 && m % 2 == 1;
      BitAndLowMask(a / 2, k - 1);
      ModDoubleStep(a, p);
      calc {
        BitAnd(a, m);
        2 * BitAnd(a / 2, m / 2) + a % 2;
        2 * BitAnd(a / 2, p - 1) + a % 2;
        2 * ((a / 2) % p) + a % 2;
      }
    }
  }

  lemma {:induction false} BitOrCommutes(a: nat, b: nat)
    ensures BitOr(a, b) == BitOr(b, a)
    decreases a + b
  {
    if a != 0 && b != 0 {
      BitOrCommutes(a / 2, b / 2);
    }
  }

  /** OR-ing a value below 2^k with a value shifted left by k is addition:
      the two occupy disjoint bits. */
  lemma {:induction false} BitOrDisjoint(a: nat, b: nat, k: nat)
    requires a < Pow2(k)
    ensures BitOr(a, Shl(b, k)) == a + Shl(b, k)
    ensures BitOr(Shl(b, k), a) == a + Shl(b, k)
  {
    BitOrCommutes(a, Shl(b, k));
    if k > 0 && a != 0 && b != 0 {
      var p := Pow2(k - 1);
      var half := b * p;
      MulLeft(b, 2, p);
      assert Shl(b, k) == 2 * half && Shl(b, k - 1) == half;
      BitOrDisjoint(a / 2, b, k - 1);
      calc {
        BitOr(a, 2 * half);
        2 * BitOr(a / 2, half) + a % 2;
        2 * (a / 2 + half) + a % 2;
      }
    }
  }

  /** OR never sets a bit above the width of both operands. */
  lemma {:induction false} BitOrBound(a: nat, b: nat, w: nat)
    requires a < Pow2(w) && b < Pow2(w)
    ensures BitOr(a, b) < Pow2(w)
  {
    if w > 0 && a != 0 && b != 0 {
      BitOrBound(a / 2, b / 2, w - 1);
    }
  }
}
