/**
 * `rsqrt` from rsqrt_fast.c: 1 / sqrt(x) in Q16 fixed point. The exponent
 * e = 31 - clz(x) picks two neighbouring entries of a table of
 * 2^16 / sqrt(2^e); the position of x between 2^e and 2^(e+1) interpolates
 * linearly between them; one Newton step refines the estimate.
 */
module ReciprocalSqrt {
  import opened Word
  import opened LeadingZeros
  import opened Newton

  /** `rsqrt_table`: entry e is within one of 2^16 / sqrt(2^e) (see TableAccurate). */
  const RsqrtTable: seq<u32> := [
    65536, 46341, 32768, 23170, 16384, 11585, 8192, 5793, 4096, 2896, 2048,
    1448, 1024, 724, 512, 362, 256, 181, 128, 90, 64, 45,
    32, 23, 16, 11, 8, 6, 4, 3, 2, 1]

  /** 2^e for every exponent the table covers, and 2^32. */
  lemma Pow2Values()
    ensures Pow2(0) == 1 && Pow2(1) == 2 && Pow2(2) == 4 && Pow2(3) == 8
    ensures Pow2(4) == 16 && Pow2(5) == 32 && Pow2(6) == 64 && Pow2(7) == 128
    ensures Pow2(8) == 0x100 && Pow2(9) == 0x200 && Pow2(10) == 0x400 && Pow2(11) == 0x800
    ensures Pow2(12) == 0x1000 && Pow2(13) == 0x2000 && Pow2(14) == 0x4000 && Pow2(15) == 0x8000
    ensures Pow2(16) == 0x1_0000 && Pow2(17) == 0x2_0000 && Pow2(18) == 0x4_0000 && Pow2(19) == 0x8_0000
    ensures Pow2(20) == 0x10_0000 && Pow2(21) == 0x20_0000 && Pow2(22) == 0x40_0000 && Pow2(23) == 0x80_0000
    ensures Pow2(24) == 0x100_0000 && Pow2(25) == 0x200_0000 && Pow2(26) == 0x400_0000 && Pow2(27) == 0x800_0000
    ensures Pow2(28) == 0x1000_0000 && Pow2(29) == 0x2000_0000 && Pow2(30) == 0x4000_0000 && Pow2(31) == 0x8000_0000
    ensures Pow2(32) == 0x1_0000_0000
  {
    assert Pow2(4) == 16;
    assert Pow2(8) == 0x100;
    assert Pow2(12) == 0x1000;
    assert Pow2(16) == 0x1_0000;
    assert Pow2(20) == 0x10_0000;
    assert Pow2(24) == 0x100_0000;
    assert Pow2(28) == 0x1000_0000;
  }

  /**
   * The table is non-increasing, and neighbours differ by less than 2^16;
   * so does the last entry from the 1 that follows it.
   */
  lemma TableSteps(e: nat)
    requires e < 32
    ensures 1 <= YNext(e) <= RsqrtTable[e] < YNext(e) + 0x1_0000
  {
  }

  /** Even entries are exact: entry 2k is 2^(16-k). */
  lemma TableEven(k: nat)
    requires k < 16
    ensures RsqrtTable[2 * k] == Pow2(16 - k)
  {
    Pow2Values();
  }

  /**
   * Every entry t = table[e] is within one of 2^16 / sqrt(2^e):
   * (t - 1)^2 * 2^e < 2^32 <= (t + 1)^2 * 2^e.
   */
  lemma TableAccurate(e: nat)
    requires e < 32
    ensures Accurate(e)
  {
    if e < 8 {
      AccurateLow(e);
    } else if e < 16 {
      AccurateMidLow(e);
    } else if e < 24 {
      AccurateMidHigh(e);
    } else {
      AccurateHigh(e);
    }
  }

  ghost predicate Accurate(e: nat)
    requires e < 32
  {
    var t := RsqrtTable[e];
    (t - 1) * (t - 1) * Pow2(e) < W <= (t + 1) * (t + 1) * Pow2(e)
  }

  lemma AccurateLow(e: nat)
    requires e < 8
    ensures Accurate(e)
  {
    Pow2Values();
  }

  lemma AccurateMidLow(e: nat)
    requires 8 <= e < 16
    ensures Accurate(e)
  {
    Pow2Values();
  }

  lemma AccurateMidHigh(e: nat)
    requires 16 <= e < 24
    ensures Accurate(e)
  {
    Pow2Values();
  }

  lemma AccurateHigh(e: nat)
    requires 24 <= e < 32
    ensures Accurate(e)
  {
    Pow2Values();
  }
  // ---------------------------------------------------------------------
  // rsqrt
  // ---------------------------------------------------------------------

  /** `exp = 31u - clz(x)`: the position of the highest set bit of x. */
  function Exponent(x: u32): (e: u32)
    requires x != 0
    ensures e < 32 && Pow2(e) <= x < Pow2(e + 1)
  {
    ClzSpec(x);
    var c := Clz(x);
    assert c <= 31;
    SubExact(31, c);
    Sub(31, c)
  }

  /** `y_next`: the entry after `y_base`, or 1 past the end of the table. */
  function YNext(e: nat): u32
    requires e < 32
  {
    if e < 31 then RsqrtTable[e + 1] else 1
  }

  /**
   * `fraction`: where x lies between 2^e and 2^(e+1), in Q16, the offset
   * x - 2^e shifted right or left so that 2^e would become 2^16.
   */
  function Fraction(x: u32): (f: u32)
    requires x != 0
    ensures f < 0x1_0000
    ensures f == (x - Pow2(Exponent(x))) * 0x1_0000 / Pow2(Exponent(x))
  {
    var e := Exponent(x);
    var d := Sub(x, Shl(1, e));
    Offset(x, e);
    if e >= 16 then
      FractionDown(x, e, d);
      Shr(d, e - 16)
    else
      FractionUp(x, e, d);
      Shl(d, 16 - e)
  }

  /** `x - (1u << exp)`: the offset of x from 2^e, which does not wrap. */
  lemma Offset(x: u32, e: nat)
    requires e < 32 && Pow2(e) <= x
    ensures Sub(x, Shl(1, e)) == x - Pow2(e)
  {
    assert Shl(1, e) == Pow2(e) by {
      Pow2Word();
      Pow2Strict(e, 32);
      ShlExact(1, e);
    }
    SubExact(x, Shl(1, e));
  }

  /** For e >= 16 the offset is shifted right by e - 16. */
  lemma FractionDown(x: u32, e: nat, d: u32)
    requires 16 <= e < 32 && Pow2(e) <= x < Pow2(e + 1) && d == x - Pow2(e)
    ensures Shr(d, e - 16) < 0x1_0000
    ensures Shr(d, e - 16) == d * 0x1_0000 / Pow2(e)
  {
    var s := Pow2(e - 16);
    assert Pow2(e) == s * 0x1_0000 && Pow2(e + 1) == 2 * Pow2(e) by {
      Pow2Constants();
      Pow2Add(e - 16, 16);
    }
    ShrBound(d, e - 16);
    assert d / s < 0x1_0000 by {
      DivMod(d, s);
      if d / s >= 0x1_0000 {
        MulMono(0x1_0000, d / s, s);
      }
    }
    assert d * 0x1_0000 / (s * 0x1_0000) == d / s by {
      DivMod(d, s);
      MulSplit(d / s, s, d % s, 0x1_0000);
      MulStrict(d % s, s, 0x1_0000);
      DivModUnique(d * 0x1_0000, s * 0x1_0000, d / s, (d % s) * 0x1_0000);
    }
  }

  /** For e < 16 the offset is shifted left by 16 - e, and no bit is lost. */
  lemma FractionUp(x: u32, e: nat, d: u32)
    requires e < 16 && Pow2(e) <= x < Pow2(e + 1) && d == x - Pow2(e)
    ensures Shl(d, 16 - e) < 0x1_0000
    ensures Shl(d, 16 - e) == d * 0x1_0000 / Pow2(e)
  {
    var s, p := Pow2(16 - e), Pow2(e);
    assert p * s == 0x1_0000 && Pow2(e + 1) == 2 * p by {
      Pow2Constants();
      Pow2Add(e, 16 - e);
    }
    var m: int := d * s;
    assert m < 0x1_0000 by {
      MulStrict(d, p, s);
    }
    assert Shl(d, 16 - e) == m by {
      ShlExact(d, 16 - e);
    }
    assert d * 0x1_0000 == m * p by {
      MulAssoc(d, s, p);
    }
    DivModUnique(d * 0x1_0000, p, m, 0);
  }

  /**
   * The linear interpolation `y = y_base - (umul(y_base - y_next, fraction) >> 16)`:
   * it lies between the two table entries, and since their difference and
   * the fraction are both below 2^16, the `umul` is exact.
   */
  function Seed(x: u32): (y: u32)
    requires x != 0
    ensures var e := Exponent(x);
      YNext(e) <= y <= RsqrtTable[e]
      && y == RsqrtTable[e] - (RsqrtTable[e] as int - YNext(e)) * Fraction(x) / 0x1_0000
  {
    var e := Exponent(x);
    var yBase := RsqrtTable[e];
    var yNext := YNext(e);
    TableSteps(e);
    SeedBetween(yBase, yNext, Fraction(x));
    Sub(yBase, Shr(Mul(Sub(yBase, yNext), Fraction(x)), 16))
  }

  /** The interpolation step on plain words. */
  lemma SeedBetween(yBase: u32, yNext: u32, f: u32)
    requires yNext <= yBase < yNext + 0x1_0000 && f < 0x1_0000
    ensures var y := Sub(yBase, Shr(Mul(Sub(yBase, yNext), f), 16));
      yNext <= y <= yBase && y == yBase - (yBase as int - yNext) * f / 0x1_0000
  {
    var diff: int := yBase - yNext;
    var prod: int := diff * f;
    assert prod <= diff * 0x1_0000 < W by {
      MulMono(f, 0x1_0000, diff);
      MulStrict(diff, 0x1_0000, 0x1_0000);
    }
    assert Mul(Sub(yBase, yNext), f) == prod by {
      SubExact(yBase, yNext);
      MulExact(diff, f);
    }
    var q: int := prod / 0x1_0000;
    assert Shr(prod, 16) == q by {
      Pow2Constants();
      ShrBound(prod, 16);
    }
    assert 0 <= q <= diff by {
      DivModUnique(diff * 0x1_0000, 0x1_0000, diff, 0);
      DivMono(prod, diff * 0x1_0000, 0x1_0000);
    }
    SubExact(yBase, q);
  }

  lemma DivMono(a: nat, b: nat, d: nat)
    requires a <= b && d > 0
    ensures a / d <= b / d
  {
    DivMod(a, d);
    DivMod(b, d);
    if a / d > b / d {
      MulMono(b / d + 1, a / d, d);
    }
  }

  /**
   * `rsqrt(x)`: 0xFFFFFFFF for 0 and 1 for 0xFFFFFFFF; otherwise one Newton
   * step from the interpolated table value.
   */
  function Rsqrt(x: u32): (r: u32)
    ensures x == 0 ==> r == 0xFFFF_FFFF
    ensures x == U32_MAX ==> r == 1
    ensures 0 < x < U32_MAX ==> r == NewtonSpec(Seed(x), x)
  {
    if x == 0 then 0xFFFF_FFFF
    else if x == U32_MAX then 1
    else NewtonStep(Seed(x), x)
  }

  /** Powers of two have their exponent as `exp`. */
  lemma ExponentOfPower(x: u32, k: nat)
    requires k < 32 && x == Pow2(k)
    ensures Exponent(x) == k
  {
    var e := Exponent(x);
    if e < k {
      Pow2Mono(e + 1, k);
    } else if e > k {
      Pow2Strict(k, e);
    }
  }

  /**
   * On powers of four the result is exact: rsqrt(4^k) = 2^16 / 2^k. The
   * table entry is exact, the fraction is 0, and the Newton step is at its
   * fixed point.
   */
  lemma RsqrtPowerOfFour(x: u32, k: nat)
    requires k < 16 && x == Pow2(2 * k)
    ensures Rsqrt(x) == Pow2(16 - k)
  {
    assert 0 < x < U32_MAX by {
      Pow2Word();
      Pow2Strict(2 * k, 32);
    }
    var y := Seed(x);
    SeedOfPower(x, k);
    PowersOfFour(k);
    NewtonFixedPoint(y, x);
  }

  /** The seed for 4^k is table entry 2k, which is exact. */
  lemma SeedOfPower(x: u32, k: nat)
    requires k < 16 && x == Pow2(2 * k)
    ensures x != 0 && Seed(x) == Pow2(16 - k)
  {
    ExponentOfPower(x, 2 * k);
    TableEven(k);
    FractionOfPower(x, 2 * k);
    var t := RsqrtTable[2 * k];
    assert (t as int - YNext(2 * k)) * 0 / 0x1_0000 == 0;
  }

  /** A power of two sits at the start of its interval: its fraction is 0. */
  lemma FractionOfPower(x: u32, e: nat)
    requires e < 32 && x == Pow2(e)
    ensures Fraction(x) == 0
  {
    ExponentOfPower(x, e);
    var p := Pow2(e);
    assert (x - p) * 0x1_0000 == 0;
    DivModUnique(0, p, 0, 0);
  }

  /** 4^k * (2^(16-k))^2 = 2^32. */
  lemma PowersOfFour(k: nat)
    requires k < 16
    ensures Pow2(2 * k) * (Pow2(16 - k) * Pow2(16 - k)) == 0x1_0000_0000
  {
    Pow2Add(16 - k, 16 - k);
    Pow2Add(2 * k, 32 - 2 * k);
    Pow2Word();
  }
}
