/**
 * 32-bit unsigned machine words of the RV32I target, and the C operators the
 * helpers of rsqrt_fast.c apply to them. On this ILP32 target both
 * `uint32_t` and `unsigned long` are 32 bits wide.
 *
 * A word is a natural number below 2^32. Every operator that can leave that
 * range wraps explicitly (`% W`), and `&` and `|` are defined bit by bit over
 * the 32 bit positions, so that the lemmas below can relate them to ordinary
 * arithmetic.
 */
module Word {

  /** 2^32: the number of distinct 32-bit words. */
  const W: nat := 0x1_0000_0000

  /** UINT32_MAX */
  const U32_MAX: nat := 0xFFFF_FFFF

  type u32 = x: nat | x < W
  type byte = x: nat | x < 0x100

  function Pow2(k: nat): (r: nat)
    ensures r >= 1
  {
    if k == 0 then 1 else 2 * Pow2(k - 1)
  }

  // ---------------------------------------------------------------------
  // The C operators on 32-bit words
  // ---------------------------------------------------------------------

  /** `x << k` on a 32-bit word: bits moved past bit 31 are lost. */
  function Shl(x: u32, k: nat): u32
    requires k < 32
  {
    (x * Pow2(k)) % W
  }

  /** `x >> k` on a 32-bit unsigned word (a logical shift). */
  function Shr(x: u32, k: nat): u32
    requires k < 32
  {
    DivLeft(x, Pow2(k));
    x / Pow2(k)
  }

  /** `x + y` on 32-bit unsigned words. */
  function Add(x: u32, y: u32): u32 {
    (x + y) % W
  }

  /** `x - y` on 32-bit unsigned words (Dafny's `%` never yields a negative value). */
  function Sub(x: u32, y: u32): u32 {
    (x - y) % W
  }

  /** `x * y` on 32-bit unsigned words: the low 32 bits of the product. */
  function Mul(x: u32, y: u32): u32 {
    (x * y) % W
  }

  /** A C comparison used as a number: 1 when it holds, 0 when it does not. */
  function Flag(b: bool): u32 {
    if b then 1 else 0
  }

  /** Bitwise AND of the low `n` bits of `x` and `y`. */
  function BitAnd(x: nat, y: nat, n: nat): (r: nat)
    ensures r < Pow2(n)
  {
    if n == 0 then 0
    else 2 * BitAnd(x / 2, y / 2, n - 1) + (if x % 2 == 1 && y % 2 == 1 then 1 else 0)
  }

  /** Bitwise OR of the low `n` bits of `x` and `y`. */
  function BitOr(x: nat, y: nat, n: nat): (r: nat)
    ensures r < Pow2(n)
  {
    if n == 0 then 0
    else 2 * BitOr(x / 2, y / 2, n - 1) + (if x % 2 == 1 || y % 2 == 1 then 1 else 0)
  }

  /** `x & y` on 32-bit words. */
  function And(x: u32, y: u32): u32 {
    Pow2Constants();
    BitAnd(x, y, 32)
  }

  /** `x | y` on 32-bit words. */
  function Or(x: u32, y: u32): u32 {
    Pow2Constants();
    BitOr(x, y, 32)
  }

  // ---------------------------------------------------------------------
  // Powers of two
  // ---------------------------------------------------------------------

  lemma {:induction false} Pow2Add(a: nat, b: nat)
    ensures Pow2(a + b) == Pow2(a) * Pow2(b)
    decreases a
  {
    if a > 0 {
      Pow2Add(a - 1, b);
      assert Pow2(a + b) == 2 * Pow2(a - 1 + b);
    }
  }

  lemma {:induction false} Pow2Strict(a: nat, b: nat)
    requires a < b
    ensures Pow2(a) < Pow2(b)
    decreases b
  {
    if a < b - 1 {
      Pow2Strict(a, b - 1);
    }
  }

  lemma Pow2Mono(a: nat, b: nat)
    requires a <= b
    ensures Pow2(a) <= Pow2(b)
  {
    if a < b {
      Pow2Strict(a, b);
    }
  }

  lemma Pow2Word()
    ensures Pow2(32) == W
  {
    Pow2Constants();
  }

  lemma Pow2Constants()
    ensures Pow2(1) == 2 && Pow2(2) == 4 && Pow2(3) == 8 && Pow2(4) == 16
    ensures Pow2(8) == 0x100 && Pow2(15) == 0x8000 && Pow2(16) == 0x1_0000
    ensures Pow2(17) == 0x2_0000 && Pow2(24) == 0x100_0000 && Pow2(28) == 0x1000_0000
    ensures Pow2(30) == 0x4000_0000 && Pow2(31) == 0x8000_0000 && Pow2(32) == W
  {
    assert Pow2(8) == 0x100;
    assert Pow2(7) == 0x80;
    Pow2Add(8, 7);
    Pow2Add(8, 8);
    Pow2Add(16, 1);
    Pow2Add(16, 8);
    Pow2Add(24, 4);
    Pow2Add(28, 2);
    Pow2Add(30, 1);
    Pow2Add(31, 1);
  }

  // ---------------------------------------------------------------------
  // Division and remainder
  // ---------------------------------------------------------------------

  lemma MulMono(a: int, b: int, d: int)
    requires d >= 0 && a <= b
    ensures a * d <= b * d
  {
    assert b * d - a * d == (b - a) * d;
  }

  lemma MulStrict(a: int, b: int, d: int)
    requires d > 0 && a < b
    ensures a * d < b * d
  {
    MulMono(a + 1, b, d);
  }

  lemma DivMod(x: int, d: int)
    requires d > 0
    ensures x == (x / d) * d + x % d && 0 <= x % d < d
  {
  }

  lemma MulBelow(t: int, p: int, s: int)
    requires t < p && s >= 0
    ensures t * s + s <= p * s
  {
    MulMono(t + 1, p, s);
  }

  lemma MulAssoc(a: int, b: int, c: int)
    ensures a * (b * c) == (a * b) * c
  {
  }

  lemma MulSplit(q: int, p: int, t: int, s: int)
    ensures (q * p + t) * s == q * (p * s) + t * s
  {
  }

  /** A quotient and remainder that fit are the quotient and remainder. */
  lemma DivModUnique(x: int, d: int, q: int, r: int)
    requires d > 0 && 0 <= r < d && x == q * d + r
    ensures x / d == q && x % d == r
  {
    var q', r' := x / d, x % d;
    assert x == q' * d + r';
    if q' < q {
      MulMono(q' + 1, q, d);
    } else if q' > q {
      MulMono(q + 1, q', d);
    }
  }

  lemma DivLeft(x: nat, d: nat)
    requires d >= 1
    ensures 0 <= x / d <= x
  {
    DivMod(x, d);
    var q := x / d;
    if q < 0 {
      MulMono(q, -1, d);
    } else {
      MulMono(1, d, q);
    }
  }

  /** Dividing by 2p is halving, then dividing by p. */
  lemma DivModDouble(x: nat, p: nat)
    requires p >= 1
    ensures x / (2 * p) == (x / 2) / p
    ensures x % (2 * p) == 2 * ((x / 2) % p) + x % 2
  {
    var h := x / 2;
    assert x == 2 * h + x % 2;
    assert h == (h / p) * p + h % p;
    assert x == (h / p) * (2 * p) + (2 * (h % p) + x % 2);
    DivModUnique(x, 2 * p, h / p, 2 * (h % p) + x % 2);
  }

  /** Dividing by a * b is dividing by a, then by b. */
  lemma DivDiv(x: nat, a: nat, b: nat)
    requires a >= 1 && b >= 1
    ensures x / (a * b) == (x / a) / b
  {
    var q := x / a;
    DivMod(x, a);
    DivMod(q, b);
    var r := (q % b) * a + x % a;
    assert x == (q / b) * (a * b) + r by {
      MulSplit(q / b, b, q % b, a);
    }
    assert r < a * b by {
      MulMono(q % b, b - 1, a);
      MulSplit(1, b - 1, 1, a);
    }
    DivModUnique(x, a * b, q / b, r);
  }

  /** Adding whole multiples of d does not change a remainder modulo d. */
  lemma ModAddMultiple(x: int, k: int, d: int)
    requires d > 0
    ensures (x + k * d) % d == x % d
    ensures (x + k * d) / d == x / d + k
  {
    DivModUnique(x + k * d, d, x / d + k, x % d);
  }

  /** Reducing an operand modulo d does not change a sum's remainder. */
  lemma ModAddLeft(x: int, y: int, d: int)
    requires d > 0
    ensures (x % d + y) % d == (x + y) % d
  {
    ModAddMultiple(x % d + y, x / d, d);
  }

  /** Reducing a factor modulo d does not change a product's remainder. */
  lemma ModMulLeft(x: int, y: int, d: int)
    requires d > 0
    ensures ((x % d) * y) % d == (x * y) % d
  {
    assert x * y == (x % d) * y + ((x / d) * y) * d;
    ModAddMultiple((x % d) * y, (x / d) * y, d);
  }

  // ---------------------------------------------------------------------
  // The bitwise operators in terms of arithmetic
  // ---------------------------------------------------------------------

  /** AND with a mask of the k low bits keeps the value modulo 2^k. */
  lemma {:induction false} BitAndLowMask(x: nat, k: nat, n: nat)
    requires k <= n
    ensures BitAnd(x, Pow2(k) - 1, n) == x % Pow2(k)
    decreases n
  {
    if k == 0 {
      assert Pow2(k) == 1;
      BitAndZero(x, n);
    } else {
      assert BitAnd(x / 2, Pow2(k - 1) - 1, n - 1) == (x / 2) % Pow2(k - 1) by {
        BitAndLowMask(x / 2, k - 1, n - 1);
      }
      BitAndMaskStep(x, k, n);
    }
  }

  /** AND with 0 is 0. */
  lemma {:induction false} BitAndZero(x: nat, n: nat)
    ensures BitAnd(x, 0, n) == 0
  {
    if n > 0 {
      BitAndZero(x / 2, n - 1);
    }
  }

  /** The step of BitAndLowMask: one more mask bit keeps one more low bit of x. */
  lemma BitAndMaskStep(x: nat, k: nat, n: nat)
    requires 1 <= k <= n
    requires BitAnd(x / 2, Pow2(k - 1) - 1, n - 1) == (x / 2) % Pow2(k - 1)
    ensures BitAnd(x, Pow2(k) - 1, n) == x % Pow2(k)
  {
    var h := Pow2(k - 1);
    MaskHalf(k);
    assert BitAnd(x, Pow2(k) - 1, n) == 2 * ((x / 2) % h) + x % 2;
    DivModDouble(x, h);
  }

  /** The mask of k low bits is one low bit above the mask of k - 1 bits. */
  lemma MaskHalf(k: nat)
    requires k >= 1
    ensures Pow2(k) == 2 * Pow2(k - 1)
    ensures (Pow2(k) - 1) / 2 == Pow2(k - 1) - 1 && (Pow2(k) - 1) % 2 == 1
  {
    DivModUnique(Pow2(k) - 1, 2, Pow2(k - 1) - 1, 1);
  }

  /** OR of a multiple of 2^k with a value below 2^k is their sum. */
  lemma {:induction false} BitOrAdd(t: nat, b: nat, k: nat, n: nat)
    requires b < Pow2(k) && t * Pow2(k) + b < Pow2(n)
    ensures BitOr(t * Pow2(k), b, n) == t * Pow2(k) + b
    decreases n
  {
    if k == 0 {
      BitOrZero(t, n);
    } else if n == 0 {
      assert t * Pow2(k) == 0 && b == 0;
    } else {
      BitOrAdd(t, b / 2, k - 1, n - 1);
      BitOrStep(t, b, k, n);
    }
  }

  /** OR with 0 keeps a value of n bits. */
  lemma {:induction false} BitOrZero(x: nat, n: nat)
    requires x < Pow2(n)
    ensures BitOr(x, 0, n) == x
  {
    if n > 0 {
      BitOrZero(x / 2, n - 1);
    }
  }

  /** The step of BitOrAdd: the low bit of the sum is the low bit of b. */
  lemma BitOrStep(t: nat, b: nat, k: nat, n: nat)
    requires 1 <= k && 1 <= n
    requires BitOr(t * Pow2(k - 1), b / 2, n - 1) == t * Pow2(k - 1) + b / 2
    ensures BitOr(t * Pow2(k), b, n) == t * Pow2(k) + b
  {
    var h := t * Pow2(k - 1);
    var a := t * Pow2(k);
    assert a == 2 * h by {
      MulAssoc(t, 2, Pow2(k - 1));
    }
    DivModUnique(a, 2, h, 0);
  }

  lemma {:induction false} BitOrComm(x: nat, y: nat, n: nat)
    ensures BitOr(x, y, n) == BitOr(y, x, n)
    decreases n
  {
    if n > 0 {
      BitOrComm(x / 2, y / 2, n - 1);
    }
  }

  lemma AndOne(x: u32)
    ensures And(x, 1) == x % 2
  {
    Pow2Constants();
    BitAndLowMask(x, 1, 32);
  }

  lemma AndLow4(x: u32)
    ensures And(x, 0xF) == x % 0x10
  {
    Pow2Constants();
    BitAndLowMask(x, 4, 32);
  }

  lemma AndLow16(x: u32)
    ensures And(x, 0xFFFF) == x % 0x1_0000
  {
    Pow2Constants();
    BitAndLowMask(x, 16, 32);
  }

  /** `hi | lo` is `hi + lo` when hi is a multiple of 2^k and lo is below 2^k. */
  lemma OrAdd(hi: u32, lo: u32, k: nat)
    requires hi % Pow2(k) == 0 && lo < Pow2(k) && hi + lo < W
    ensures Or(hi, lo) == hi + lo
  {
    var p := Pow2(k);
    var t := hi / p;
    assert hi == t * p by {
      DivMod(hi, p);
    }
    Pow2Word();
    BitOrAdd(t, lo, k, 32);
  }

  /** The same, with the low part written first. */
  lemma OrAddSwapped(lo: u32, hi: u32, k: nat)
    requires hi % Pow2(k) == 0 && lo < Pow2(k) && hi + lo < W
    ensures Or(lo, hi) == hi + lo
  {
    BitOrComm(lo, hi, 32);
    OrAdd(hi, lo, k);
  }

  /** `x << k` keeps the low 32 - k bits of x and moves them up by k places. */
  lemma ShlSplit(x: u32, k: nat)
    requires k < 32
    ensures Shl(x, k) == (x % Pow2(32 - k)) * Pow2(k)
    ensures Shl(x, k) % Pow2(k) == 0
  {
    var p, s := Pow2(32 - k), Pow2(k);
    assert p * s == W by {
      Pow2Word();
      Pow2Add(32 - k, k);
    }
    var q, t := x / p, x % p;
    assert x * s == t * s + q * W by {
      DivMod(x, p);
      MulSplit(q, p, t, s);
    }
    assert 0 <= t * s < W by {
      MulMono(0, t, s);
      MulMono(t, p - 1, s);
      MulSplit(1, p - 1, 1, s);
    }
    assert Shl(x, k) == t * s by {
      ModAddMultiple(t * s, q, W);
      DivModUnique(t * s, W, 0, t * s);
    }
    ModAddMultiple(0, t, s);
  }

  /** `(cond) << k` is 2^k or 0. */
  lemma ShlFlag(b: bool, k: nat)
    requires k < 32
    ensures Shl(Flag(b), k) == if b then Pow2(k) else 0
  {
    Pow2Strict(k, 32);
    Pow2Word();
  }

  /** A left shift that loses no bit is a multiplication. */
  lemma ShlExact(x: u32, k: nat)
    requires k < 32 && x * Pow2(k) < W
    ensures Shl(x, k) == x * Pow2(k)
  {
    MulMono(0, x, Pow2(k));
    DivModUnique(x * Pow2(k), W, 0, x * Pow2(k));
  }

  /** `x >> k` is the quotient by 2^k, and fits in 32 - k bits. */
  lemma ShrBound(x: u32, k: nat)
    requires k < 32
    ensures Shr(x, k) == x / Pow2(k) < Pow2(32 - k)
  {
    var p, s := Pow2(32 - k), Pow2(k);
    assert p * s == W by {
      Pow2Word();
      Pow2Add(32 - k, k);
    }
    DivMod(x, s);
    if x / s >= p {
      MulMono(p, x / s, s);
    }
  }

  /** Or-ing a value below 2^k into `hi << k` is an addition. */
  lemma OrShifted(hi: u32, k: nat, lo: u32)
    requires 0 < k < 32 && lo < Pow2(k)
    ensures Or(Shl(hi, k), lo) == Shl(hi, k) + lo
  {
    var p, s := Pow2(32 - k), Pow2(k);
    ShlSplit(hi, k);
    assert Shl(hi, k) + s <= W by {
      assert p * s == W by {
        Pow2Word();
        Pow2Add(32 - k, k);
      }
      DivMod(hi, p);
      MulBelow(hi % p, p, s);
    }
    OrAdd(Shl(hi, k), lo, k);
  }

  /** Shifts by one place double and halve. */
  lemma ShiftOne(x: u32)
    ensures Shl(x, 1) == (2 * x) % W && Shr(x, 1) == x / 2
  {
    assert Pow2(1) == 2;
  }

  /** The shifted constants of the rounding step, `1 << 16` and `3 << 16`. */
  lemma ShlConstants()
    ensures Shl(1, 16) == 0x1_0000 && Shl(3, 16) == 0x3_0000
  {
    Pow2Constants();
  }

  // ---------------------------------------------------------------------
  // Operations that do not wrap
  // ---------------------------------------------------------------------

  lemma AddExact(x: u32, y: u32)
    requires x + y < W
    ensures Add(x, y) == x + y
  {
    DivModUnique(x + y, W, 0, x + y);
  }

  lemma SubExact(x: u32, y: u32)
    requires y <= x
    ensures Sub(x, y) == x - y
  {
    DivModUnique(x - y, W, 0, x - y);
  }

  lemma MulExact(x: u32, y: u32)
    requires x * y < W
    ensures Mul(x, y) == x * y
  {
    MulMono(0, x, y);
    DivModUnique(x * y, W, 0, x * y);
  }
}
