/**
 * `newton_step_q16_inline` from rsqrt_fast.c: one Newton step
 * y' = y * (3 - x * y^2) / 2 for the reciprocal square root, with y in Q16
 * fixed point (y / 2^16 approximates 1 / sqrt(x)). Every product is formed
 * exactly as 64 bits by `mul32x32`, then cut back to a 32-bit word.
 */
module Newton {
  import opened Word
  import opened SoftMul

  /**
   * The step in exact integer arithmetic: xy2 = x * y^2 / 2^16 and
   * term = 3 * 2^16 - xy2 (each kept to 32 bits, as the source's words are),
   * then y * term / 2^17 rounded to nearest by adding 2^16 first.
   */
  function NewtonSpec(y: int, x: int): int {
    var xy2 := (x * (y * y) / 0x1_0000) % W;
    var term := (0x3_0000 - xy2) % W;
    ((y * term + 0x1_0000) / 0x2_0000) % W
  }

  /**
   * `newton_step_q16_inline(y, x)`: xy2, then term = (3 << 16) - xy2, then
   * the rounded y * term / 2^17. It computes NewtonSpec exactly.
   */
  function NewtonStep(y: u32, x: u32): (r: u32)
    ensures r == NewtonSpec(y, x)
  {
    var xy2 := ScaledSquare(y, x);
    var term := Sub(Shl(3, 16), xy2);
    ThreeMinus(xy2);
    SpecTerms(y, x, xy2, term);
    RoundedProduct(y, term)
  }

  /** `(3 << 16) - xy2` on words. */
  lemma ThreeMinus(xy2: u32)
    ensures Sub(Shl(3, 16), xy2) == (0x3_0000 - xy2) % W
  {
    ShlConstants();
  }

  /** NewtonSpec, given its two intermediate words. */
  lemma SpecTerms(y: int, x: int, xy2: int, term: int)
    requires xy2 == (x * (y * y) / 0x1_0000) % W
    requires term == (0x3_0000 - xy2) % W
    ensures NewtonSpec(y, x) == ((y * term + 0x1_0000) / 0x2_0000) % W
  {
  }

  /**
   * The first half of the step: `xy2 = termA + termB`, where termA keeps the
   * part of x * y^2 / 2^16 that comes from the high word of y^2 and termB
   * the part from its low word. It is x * y^2 / 2^16 modulo 2^32.
   */
  function ScaledSquare(y: u32, x: u32): (xy2: u32)
    ensures xy2 == (x as int * (y as int * y) / 0x1_0000) % W
  {
    var (y2Hi, y2Lo) := Mul32x32(y, y);
    var (hi1, lo1) := Mul32x32(x, y2Hi);
    var termA := Shl(lo1, 16);
    var (hi2, lo2) := Mul32x32(x, y2Lo);
    var termB := Or(Shl(hi2, 16), Shr(lo2, 16));
    ScaledSquareWords(x, y as int * y, y2Hi, y2Lo, hi1, lo1, hi2, lo2);
    Add(termA, termB)
  }

  /**
   * The second half of the step: y * term as two words, `lo + (1 << 16)`
   * with its carry into the high word, and the pair shifted down by 17.
   * It is (y * term + 2^16) / 2^17 modulo 2^32: y * term / 2^17, rounded.
   */
  function RoundedProduct(y: u32, term: u32): (r: u32)
    ensures r == ((y as int * term + 0x1_0000) / 0x2_0000) % W
  {
    var (hi, lo) := Mul32x32(y, term);
    ShlConstants();
    var loPlus := Add(lo, Shl(1, 16));
    var hiPlus := Add(hi, Flag(loPlus < lo));
    HighWordRoom(y, term, hi, lo);
    RoundingCarry(hi, lo);
    ShiftDownPair(hiPlus, loPlus);
    Or(Shl(hiPlus, 15), Shr(loPlus, 17))
  }

  // ---------------------------------------------------------------------
  // xy2 = x * y^2 / 2^16, modulo 2^32
  // ---------------------------------------------------------------------

  /**
   * With y^2 = y2Hi * 2^32 + y2Lo, x * y2Hi = hi1 * 2^32 + lo1 and
   * x * y2Lo = hi2 * 2^32 + lo2, the low word of x * y^2 / 2^16 only
   * depends on lo1, hi2 and lo2: hi1 is shifted out entirely.
   */
  lemma ScaledSquareArith(x: nat, yy: nat, y2Hi: nat, y2Lo: nat, hi1: nat, lo1: nat, hi2: nat, lo2: nat)
    requires yy == y2Hi * 0x1_0000_0000 + y2Lo
    requires x * y2Hi == hi1 * 0x1_0000_0000 + lo1
    requires x * y2Lo == hi2 * 0x1_0000_0000 + lo2
    ensures (x * yy / 0x1_0000) % W
      == ((lo1 * 0x1_0000) % W + (hi2 * 0x1_0000) % W + lo2 / 0x1_0000) % W
  {
    var n := x * yy;
    assert n == (hi1 * 0x1_0000_0000 + lo1) * 0x1_0000_0000 + hi2 * 0x1_0000_0000 + lo2 by {
      Spread(x, y2Hi, y2Lo);
    }
    var rest := lo1 * 0x1_0000 + hi2 * 0x1_0000 + lo2 / 0x1_0000;
    var q := hi1 * 0x1_0000 * W + rest;
    assert n / 0x1_0000 == q by {
      DivMod(lo2, 0x1_0000);
      DivModUnique(n, 0x1_0000, q, lo2 % 0x1_0000);
    }
    assert q % W == rest % W by {
      ModAddMultiple(rest, hi1 * 0x1_0000, W);
    }
    assert rest % W == ((lo1 * 0x1_0000) % W + (hi2 * 0x1_0000) % W + lo2 / 0x1_0000) % W by {
      ModAddLeft(lo1 * 0x1_0000, (hi2 * 0x1_0000) % W + lo2 / 0x1_0000, W);
      ModAddLeft(hi2 * 0x1_0000, lo1 * 0x1_0000 + lo2 / 0x1_0000, W);
    }
  }

  lemma Spread(x: int, hi: int, lo: int)
    ensures x * (hi * 0x1_0000_0000 + lo) == (x * hi) * 0x1_0000_0000 + x * lo
  {
  }

  /** The same, with termA, termB and their sum written as the source's word operations. */
  lemma ScaledSquareWords(x: u32, yy: int, y2Hi: u32, y2Lo: u32, hi1: u32, lo1: u32, hi2: u32, lo2: u32)
    requires yy == y2Hi * W + y2Lo
    requires x * y2Hi == hi1 * W + lo1
    requires x * y2Lo == hi2 * W + lo2
    ensures Add(Shl(lo1, 16), Or(Shl(hi2, 16), Shr(lo2, 16))) == (x * yy / 0x1_0000) % W
  {
    Pow2Constants();
    assert Shr(lo2, 16) == lo2 / 0x1_0000 < 0x1_0000 by {
      ShrBound(lo2, 16);
    }
    assert Or(Shl(hi2, 16), Shr(lo2, 16)) == Shl(hi2, 16) + lo2 / 0x1_0000 by {
      OrShifted(hi2, 16, Shr(lo2, 16));
    }
    ScaledSquareArith(x, yy, y2Hi, y2Lo, hi1, lo1, hi2, lo2);
    ModAddLeft((lo1 * 0x1_0000) % W, (hi2 * 0x1_0000) % W + lo2 / 0x1_0000, W);
  }

  // ---------------------------------------------------------------------
  // y * term, rounded and divided by 2^17
  // ---------------------------------------------------------------------

  /**
   * The high word of a product of two words is at most 2^32 - 2, so adding
   * a carry to it does not wrap.
   */
  lemma HighWordRoom(y: u32, t: u32, hi: nat, lo: nat)
    requires lo < W && hi * W + lo == y * t
    ensures hi <= W - 2
  {
    MulMono(y, W - 1, t);
    MulMono(t, W - 1, W - 1);
    if hi > W - 2 {
      MulMono(W - 1, hi, W);
    }
  }

  /** The carry out of `lo + 2^16` makes the addition exact across the two words. */
  lemma RoundingCarry(hi: u32, lo: u32)
    requires hi <= W - 2
    ensures var loPlus := Add(lo, 0x1_0000);
      var hiPlus := Add(hi, Flag(loPlus < lo));
      hiPlus * W + loPlus == hi * W + lo + 0x1_0000
  {
    var loPlus := Add(lo, 0x1_0000);
    if lo + 0x1_0000 < W {
      assert loPlus == lo + 0x1_0000;
    } else {
      assert loPlus == lo + 0x1_0000 - W;
    }
  }

  /**
   * `(hiPlus << 15) | (loPlus >> 17)` is the two-word value hiPlus:loPlus
   * divided by 2^17, modulo 2^32.
   */
  lemma ShiftDownPair(hiPlus: u32, loPlus: u32)
    ensures Or(Shl(hiPlus, 15), Shr(loPlus, 17))
      == ((hiPlus * W + loPlus) / 0x2_0000) % W
  {
    Pow2Constants();
    assert Shr(loPlus, 17) == loPlus / 0x2_0000 < 0x8000 by {
      ShrBound(loPlus, 17);
    }
    var a := Shl(hiPlus, 15);
    assert Or(a, Shr(loPlus, 17)) == a + loPlus / 0x2_0000 by {
      OrShifted(hiPlus, 15, Shr(loPlus, 17));
    }
    assert a + 0x8000 <= W && a == (hiPlus * 0x8000) % W by {
      ShlSplit(hiPlus, 15);
      OrShifted(hiPlus, 15, 0);
      DivMod(a, 0x8000);
    }
    var q := hiPlus * 0x8000 + loPlus / 0x2_0000;
    assert (hiPlus * W + loPlus) / 0x2_0000 == q by {
      DivMod(loPlus, 0x2_0000);
      DivModUnique(hiPlus * W + loPlus, 0x2_0000, q, loPlus % 0x2_0000);
    }
    assert q % W == a + loPlus / 0x2_0000 by {
      ModAddLeft(hiPlus * 0x8000, loPlus / 0x2_0000, W);
      DivModUnique(a + loPlus / 0x2_0000, W, 0, a + loPlus / 0x2_0000);
    }
  }

  /** NewtonSpec has the exact root as a fixed point. */
  lemma SpecAtRoot(y: int, x: int)
    requires 0 <= y < W && x * (y * y) == 0x1_0000_0000
    ensures NewtonSpec(y, x) == y
  {
    var n: int := x * (y * y);
    assert (n / 0x1_0000) % W == 0x1_0000;
    var m: int := y * 0x2_0000 + 0x1_0000;
    assert m / 0x2_0000 == y by {
      DivModUnique(m, 0x2_0000, y, 0x1_0000);
    }
  }

  /**
   * At the exact root (x * y^2 = 2^32, i.e. y / 2^16 = 1 / sqrt(x)) the step
   * leaves y unchanged: xy2 is 2^16, term is 2^17, and y * 2^17 rounds back
   * to y.
   */
  lemma NewtonFixedPoint(y: u32, x: u32)
    requires x as int * (y as int * y) == 0x1_0000_0000
    ensures NewtonStep(y, x) == y
  {
    assert NewtonSpec(y, x) == y by {
      SpecAtRoot(y, x);
    }
  }
}
