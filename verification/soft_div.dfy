/**
 * `udiv` and `umod` from rsqrt_fast.c: restoring shift-and-subtract division
 * for an RV32I core without a divide instruction. Each of the 32 steps
 * brings the next dividend bit, from bit 31 down to bit 0, into the partial
 * remainder and subtracts the divisor when it fits, setting that quotient bit.
 */
module SoftDiv {
  import opened Word

  /** The bits of n above position i: what the loop has consumed when i bits remain. */
  function Consumed(n: u32, i: nat): (p: nat)
    ensures p <= n
  {
    DivLeft(n, Pow2(i));
    n / Pow2(i)
  }

  /**
   * `udiv`: a divisor of 0 yields 0; otherwise the quotient rounded down.
   */
  method Udiv(dividend: u32, divisor: u32) returns (quotient: u32)
    ensures divisor == 0 ==> quotient == 0
    ensures divisor != 0 ==> quotient == dividend / divisor
  {
    if divisor == 0 {
      return 0;
    }
    quotient := 0;
    var remainder: u32 := 0;
    NothingConsumed(dividend, divisor);
    for i := 32 downto 0
      invariant remainder == Consumed(dividend, i) % divisor
      invariant quotient == Consumed(dividend, i) / divisor * Pow2(i)
    {
      RemainderStep(dividend, divisor, i, remainder);
      remainder := Shl(remainder, 1);
      remainder := Or(remainder, And(Shr(dividend, i), 1));
      QuotientStep(dividend, divisor, i, quotient, remainder >= divisor);
      if remainder >= divisor {
        remainder := Sub(remainder, divisor);
        quotient := Or(quotient, Shl(1, i));
      }
    }
  }

  /**
   * `umod`: a divisor of 0 yields 0; otherwise the remainder of the division.
   */
  method Umod(dividend: u32, divisor: u32) returns (remainder: u32)
    ensures divisor == 0 ==> remainder == 0
    ensures divisor != 0 ==> remainder == dividend % divisor
  {
    if divisor == 0 {
      return 0;
    }
    remainder := 0;
    NothingConsumed(dividend, divisor);
    for i := 32 downto 0
      invariant remainder == Consumed(dividend, i) % divisor
    {
      RemainderStep(dividend, divisor, i, remainder);
      remainder := Shl(remainder, 1);
      remainder := Or(remainder, And(Shr(dividend, i), 1));
      if remainder >= divisor {
        remainder := Sub(remainder, divisor);
      }
    }
  }

  /** Before the first step nothing is consumed; after the last, everything is. */
  lemma NothingConsumed(n: u32, d: u32)
    requires d > 0
    ensures Consumed(n, 32) % d == 0 && Consumed(n, 32) / d * Pow2(32) == 0
    ensures Consumed(n, 0) % d == n % d && Consumed(n, 0) / d * Pow2(0) == n / d
  {
    Pow2Word();
    assert Consumed(n, 32) == 0;
  }

  /** Consuming bit i doubles what was consumed and adds that bit. */
  lemma ConsumeBit(n: u32, i: nat)
    requires i < 32
    ensures And(Shr(n, i), 1) == Consumed(n, i) % 2
    ensures Consumed(n, i) == 2 * Consumed(n, i + 1) + Consumed(n, i) % 2
    ensures Consumed(n, i + 1) < 0x8000_0000
  {
    assert And(Shr(n, i), 1) == Consumed(n, i) % 2 by {
      AndOne(Shr(n, i));
    }
    assert Consumed(n, i + 1) == Consumed(n, i) / 2 by {
      assert Pow2(i + 1) == Pow2(i) * 2;
      DivDiv(n, Pow2(i), 2);
    }
    assert Consumed(n, i + 1) < 0x8000_0000 by {
      Pow2Constants();
      Pow2Mono(31, 31 + i);
      Pow2Add(31, i + 1);
      DivBelow(n, Pow2(31), Pow2(i + 1));
    }
  }

  /** x < a * b implies x / b < a. */
  lemma DivBelow(x: nat, a: nat, b: nat)
    requires b >= 1 && x < a * b
    ensures x / b < a
  {
    DivMod(x, b);
    if x / b >= a {
      MulMono(a, x / b, b);
    }
  }

  /**
   * The arithmetic of one restoring step: from the quotient and remainder of
   * p by d, those of 2p + bit follow by one comparison and one subtraction.
   */
  lemma RestoringStep(big: nat, p: nat, bit: nat, d: nat)
    requires d > 0 && bit < 2 && big == 2 * p + bit
    ensures p % d <= p
    ensures 2 * (p % d) + bit >= d ==>
      big / d == 2 * (p / d) + 1 && big % d == 2 * (p % d) + bit - d
    ensures 2 * (p % d) + bit < d ==>
      big / d == 2 * (p / d) && big % d == 2 * (p % d) + bit
  {
    var q, m := p / d, p % d;
    assert p == q * d + m && 0 <= m < d by {
      DivMod(p, d);
    }
    MulMono(0, q, d);
    var r := 2 * m + bit;
    if r >= d {
      assert big == (2 * q + 1) * d + (r - d) by {
        MulSplit(2, q, 1, d);
      }
      DivModUnique(big, d, 2 * q + 1, r - d);
    } else {
      assert big == (2 * q) * d + r by {
        MulSplit(2, q, 0, d);
      }
      DivModUnique(big, d, 2 * q, r);
    }
  }

  /**
   * One step on the partial remainder: shifting it left loses no bit (it is
   * below 2^31), OR-ing in the next dividend bit adds that bit, and after the
   * conditional subtraction it is the remainder of the enlarged prefix.
   */
  lemma RemainderStep(n: u32, d: u32, i: nat, rem: u32)
    requires d > 0 && i < 32 && rem == Consumed(n, i + 1) % d
    ensures var r := Or(Shl(rem, 1), And(Shr(n, i), 1));
      r == 2 * rem + Consumed(n, i) % 2 &&
      (if r >= d then Sub(r, d) else r) == Consumed(n, i) % d
  {
    var bit := Consumed(n, i) % 2;
    ConsumeBit(n, i);
    RestoringStep(Consumed(n, i), Consumed(n, i + 1), bit, d);
    assert Shl(rem, 1) == 2 * rem by {
      assert Pow2(1) == 2;
      ShlExact(rem, 1);
    }
    assert rem < 0x8000_0000;
    var r: u32 := 2 * rem + bit;
    assert Or(2 * rem, bit) == r by {
      assert Pow2(1) == 2;
      DivModUnique(2 * rem, 2, rem, 0);
      OrAdd(2 * rem, bit, 1);
    }
    if r >= d {
      SubExact(r, d);
    }
  }

  /**
   * One step on the quotient: when the divisor fits, OR-ing in bit i adds
   * 2^i, because every bit set so far lies above position i.
   */
  lemma QuotientStep(n: u32, d: u32, i: nat, quo: u32, fits: bool)
    requires d > 0 && i < 32
    requires quo == Consumed(n, i + 1) / d * Pow2(i + 1)
    requires fits == (2 * (Consumed(n, i + 1) % d) + Consumed(n, i) % 2 >= d)
    ensures (if fits then Or(quo, Shl(1, i)) else quo) == Consumed(n, i) / d * Pow2(i)
  {
    var big, p := Consumed(n, i), Consumed(n, i + 1);
    ConsumeBit(n, i);
    RestoringStep(big, p, big % 2, d);
    var q := p / d;
    assert Pow2(i + 1) == 2 * Pow2(i);
    assert quo == q * (2 * Pow2(i));
    if fits {
      assert big / d * Pow2(i) == quo + Pow2(i) by {
        MulSplit(q, 2, 1, Pow2(i));
      }
      assert quo + Pow2(i) < W by {
        DivLeft(big, d);
        MulMono(big / d, big, Pow2(i));
        DivMod(n, Pow2(i));
      }
      Pow2Word();
      Pow2Strict(i, 32);
      ShlExact(1, i);
      Pow2Strict(i, i + 1);
      ModAddMultiple(0, q, Pow2(i + 1));
      OrAdd(quo, Pow2(i), i + 1);
    } else {
      MulSplit(q, 2, 0, Pow2(i));
    }
  }
}
