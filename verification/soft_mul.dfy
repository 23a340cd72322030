/**
 * Multiplication for an RV32I core without the M extension, from
 * rsqrt_fast.c: `umul` (and `__mulsi3`, the routine the compiler calls for
 * every 32-bit `*`) by shift-and-add, and `mul32x32`, the exact 64-bit
 * product assembled from four 16 x 16-bit partial products.
 */
module SoftMul {
  import opened Word

  /**
   * `umul`: for each set bit of `b`, add the correspondingly shifted `a`.
   * The source shifts its parameters in place; here `x` and `y` are those
   * running copies of `a` and `b`.
   */
  method Umul(a: u32, b: u32) returns (result: u32)
    ensures result == (a * b) % W
  {
    var x, y := a, b;
    result := 0;
    while y != 0
      invariant (result + x as int * y) % W == (a * b) % W
      decreases y
    {
      ShiftAddStep(result, x, y);
      if And(y, 1) != 0 {
        result := Add(result, x);
      }
      x := Shl(x, 1);
      y := Shr(y, 1);
    }
  }

  /** `__mulsi3`, the compiler's helper for `*` on 32-bit words, is `umul`. */
  method MulSi3(a: u32, b: u32) returns (r: u32)
    ensures r == Mul(a, b)
  {
    r := Umul(a, b);
  }

  /**
   * One step of `umul` keeps result + a * b fixed modulo 2^32: the low bit of
   * b moves a into the result, and the halving of b is paid for by doubling a.
   */
  lemma ShiftAddStep(result: u32, x: u32, y: u32)
    requires y != 0
    ensures var r' := if And(y, 1) != 0 then Add(result, x) else result;
      (r' + Shl(x, 1) * Shr(y, 1)) % W == (result + x * y) % W
  {
    var h, bit := y / 2, y % 2;
    var added := if bit == 1 then x as int else 0;
    var r' := if And(y, 1) != 0 then Add(result, x) else result;
    LowBit(result, x, y);
    ShiftOne(x);
    ShiftOne(y);
    DivMod(y, 2);
    Distribute(x, y, h, bit);
    StepSum(r', Shl(x, 1), Shr(y, 1), result, x, y, result + added, h);
  }

  /**
   * The sum of one step: the new result and the doubled a, each reduced
   * modulo 2^32, times the halved b.
   */
  lemma StepSum(r': int, x': int, y': int, result: int, x: int, y: int, a: int, h: int)
    requires r' == a % W && x' == (2 * x) % W && y' == h
    requires x * y == a - result + (2 * x) * h
    ensures (r' + x' * y') % W == (result + x * y) % W
  {
    ReducedTerms(r', x', a, 2 * x, h);
  }

  /** `if (b & 1) result += a`: adds a exactly when the low bit of b is set. */
  lemma LowBit(result: u32, x: u32, y: u32)
    ensures (if And(y, 1) != 0 then Add(result, x) else result)
      == (result + (if y % 2 == 1 then x else 0)) % W
  {
    AndOne(y);
    if y % 2 == 0 {
      DivModUnique(result, W, 0, result);
    }
  }

  /** y = 2h + bit, so x * y is the bit's share of x plus 2x * h. */
  lemma Distribute(x: int, y: int, h: int, bit: int)
    requires y == h * 2 + bit && (bit == 0 || bit == 1)
    ensures x * y == (if bit == 1 then x else 0) + (2 * x) * h
  {
  }

  /** Reducing both terms of a + c * h modulo 2^32 first does not change the sum modulo 2^32. */
  lemma ReducedTerms(a': int, c': int, a: int, c: int, h: int)
    requires a' == a % W && c' == c % W
    ensures (a' + c' * h) % W == (a + c * h) % W
  {
    ModAddLeft(a, (c % W) * h, W);
    ModAddLeft((c % W) * h, a, W);
    ModMulLeft(c, h, W);
    ModAddLeft(c * h, a, W);
  }

  // ---------------------------------------------------------------------
  // mul32x32
  // ---------------------------------------------------------------------

  /**
   * `mul32x32`: the 64-bit product of a and b as its high and low words
   * (the source's `*hi` and `*lo` out-parameters). Each `*` below is a
   * 32-bit multiplication of two 16-bit halves; nothing is lost, so
   * hi * 2^32 + lo is a * b exactly.
   */
  function Mul32x32(a: u32, b: u32): (r: (u32, u32))
    ensures r.0 * W + r.1 == a * b
  {
    var aLo, aHi := And(a, 0xFFFF), Shr(a, 16);
    var bLo, bHi := And(b, 0xFFFF), Shr(b, 16);
    var p0 := Mul(aLo, bLo);
    var p1 := Mul(aLo, bHi);
    var p2 := Mul(aHi, bLo);
    var p3 := Mul(aHi, bHi);
    var mid := Add(Add(Shr(p0, 16), And(p1, 0xFFFF)), And(p2, 0xFFFF));
    var lo := Or(And(p0, 0xFFFF), Shl(mid, 16));
    var hi := Add(Add(Add(p3, Shr(p1, 16)), Shr(p2, 16)), Shr(mid, 16));
    Assemble(a, b, p0, p1, p2, p3, mid);
    (hi, lo)
  }

  /** A word is its high half times 2^16 plus its low half. */
  lemma Halves(x: u32)
    ensures Shr(x, 16) == x / 0x1_0000 < 0x1_0000
    ensures And(x, 0xFFFF) == x % 0x1_0000
  {
    Pow2Constants();
    AndLow16(x);
    ShrBound(x, 16);
  }

  /** The product of two 16-bit halves fits in a word, so `*` does not wrap. */
  lemma HalfProduct(x: u32, y: u32)
    requires x < 0x1_0000 && y < 0x1_0000
    ensures Mul(x, y) == x * y
  {
    MulMono(x, 0xFFFF, y);
    MulMono(y, 0xFFFF, 0xFFFF);
    MulExact(x, y);
  }

  /** Schoolbook multiplication in base 2^16. */
  lemma HalvesProduct(a: nat, b: nat, aHi: nat, aLo: nat, bHi: nat, bLo: nat)
    requires a == aHi * 0x1_0000 + aLo && b == bHi * 0x1_0000 + bLo
    ensures a * b == aHi * bHi * 0x1_0000_0000 + (aLo * bHi + aHi * bLo) * 0x1_0000 + aLo * bLo
  {
  }

  /**
   * The middle column: the carry out of p0 plus the low halves of p1 and p2
   * is below 3 * 2^16, so the two additions forming `mid` never wrap.
   */
  lemma MidColumn(p0: u32, p1: u32, p2: u32)
    ensures var mid := Add(Add(Shr(p0, 16), And(p1, 0xFFFF)), And(p2, 0xFFFF));
      mid == p0 / 0x1_0000 + p1 % 0x1_0000 + p2 % 0x1_0000 < 3 * 0x1_0000
  {
    Halves(p0);
    Halves(p1);
    Halves(p2);
    var s1 := Shr(p0, 16) + And(p1, 0xFFFF);
    assert Add(Shr(p0, 16), And(p1, 0xFFFF)) == s1 by {
      AddExact(Shr(p0, 16), And(p1, 0xFFFF));
    }
    AddExact(s1, And(p2, 0xFFFF));
  }

  /** The low word: the low half of p0 under the low half of `mid`. */
  lemma LowWord(p0: u32, mid: u32)
    ensures Or(And(p0, 0xFFFF), Shl(mid, 16)) == (mid % 0x1_0000) * 0x1_0000 + p0 % 0x1_0000
  {
    Halves(p0);
    Pow2Constants();
    ShlSplit(mid, 16);
    assert (mid % 0x1_0000) * 0x1_0000 < W by {
      MulMono(mid % 0x1_0000, 0xFFFF, 0x1_0000);
    }
    OrAddSwapped(And(p0, 0xFFFF), Shl(mid, 16), 16);
  }

  /** The high word: p3 and the carries out of p1, p2 and `mid`, when their sum fits. */
  lemma HighWord(p1: u32, p2: u32, p3: u32, mid: u32)
    requires p3 + p1 / 0x1_0000 + p2 / 0x1_0000 + mid / 0x1_0000 < W
    ensures Add(Add(Add(p3, Shr(p1, 16)), Shr(p2, 16)), Shr(mid, 16))
      == p3 + p1 / 0x1_0000 + p2 / 0x1_0000 + mid / 0x1_0000
  {
    Halves(p1);
    Halves(p2);
    Halves(mid);
    var s1 := p3 + Shr(p1, 16);
    assert Add(p3, Shr(p1, 16)) == s1 by {
      AddExact(p3, Shr(p1, 16));
    }
    var s2 := s1 + Shr(p2, 16);
    assert Add(s1, Shr(p2, 16)) == s2 by {
      AddExact(s1, Shr(p2, 16));
    }
    AddExact(s2, Shr(mid, 16));
  }

  /**
   * Carrying in base 2^16: the columns p3 * 2^32 + (p1 + p2) * 2^16 + p0,
   * regrouped into a high word and a low word.
   */
  lemma Columns(p0: nat, p1: nat, p2: nat, p3: nat)
    ensures var mid := p0 / 0x1_0000 + p1 % 0x1_0000 + p2 % 0x1_0000;
      p3 * 0x1_0000_0000 + (p1 + p2) * 0x1_0000 + p0
      == (p3 + p1 / 0x1_0000 + p2 / 0x1_0000 + mid / 0x1_0000) * 0x1_0000_0000
         + (mid % 0x1_0000) * 0x1_0000 + p0 % 0x1_0000
  {
    var mid := p0 / 0x1_0000 + p1 % 0x1_0000 + p2 % 0x1_0000;
    DivMod(p0, 0x1_0000);
    DivMod(p1, 0x1_0000);
    DivMod(p2, 0x1_0000);
    DivMod(mid, 0x1_0000);
  }

  /** A product of two words is below 2^64. */
  lemma ProductBelow(a: u32, b: u32)
    ensures a * b < W * W
  {
    MulMono(a, W - 1, b);
    MulMono(b, W - 1, W - 1);
  }

  /** The four partial products are exact and add up, by columns, to a * b. */
  lemma PartialProducts(a: u32, b: u32)
    ensures var aLo, aHi := And(a, 0xFFFF), Shr(a, 16);
      var bLo, bHi := And(b, 0xFFFF), Shr(b, 16);
      a * b == Mul(aHi, bHi) * 0x1_0000_0000
        + (Mul(aLo, bHi) + Mul(aHi, bLo)) * 0x1_0000 + Mul(aLo, bLo)
  {
    var aLo, aHi := And(a, 0xFFFF), Shr(a, 16);
    var bLo, bHi := And(b, 0xFFFF), Shr(b, 16);
    Halves(a);
    Halves(b);
    HalfProduct(aLo, bLo);
    HalfProduct(aLo, bHi);
    HalfProduct(aHi, bLo);
    HalfProduct(aHi, bHi);
    DivMod(a, 0x1_0000);
    DivMod(b, 0x1_0000);
    HalvesProduct(a, b, aHi, aLo, bHi, bLo);
  }

  /**
   * The words `mul32x32` assembles from its four partial products: the low
   * halves of p0 and `mid`, and p3 plus the carries out of p1, p2 and `mid`.
   */
  lemma Assemble(a: u32, b: u32, p0: u32, p1: u32, p2: u32, p3: u32, mid: u32)
    requires p0 == Mul(And(a, 0xFFFF), And(b, 0xFFFF))
    requires p1 == Mul(And(a, 0xFFFF), Shr(b, 16))
    requires p2 == Mul(Shr(a, 16), And(b, 0xFFFF))
    requires p3 == Mul(Shr(a, 16), Shr(b, 16))
    requires mid == Add(Add(Shr(p0, 16), And(p1, 0xFFFF)), And(p2, 0xFFFF))
    ensures Add(Add(Add(p3, Shr(p1, 16)), Shr(p2, 16)), Shr(mid, 16)) * W
      + Or(And(p0, 0xFFFF), Shl(mid, 16)) == a * b
  {
    var hi: int := p3 as int + p1 as int / 0x1_0000 + p2 as int / 0x1_0000 + mid as int / 0x1_0000;
    var lo: int := (mid as int % 0x1_0000) * 0x1_0000 + p0 as int % 0x1_0000;
    assert a * b == hi * 0x1_0000_0000 + lo by {
      PartialProducts(a, b);
      MidColumn(p0, p1, p2);
      Columns(p0, p1, p2, p3);
    }
    assert hi < W by {
      ProductBelow(a, b);
      if hi >= W {
        MulMono(W, hi, W);
      }
    }
    LowWord(p0, mid);
    HighWord(p1, p2, p3, mid);
  }
}
