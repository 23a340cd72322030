/**
 * `clz` from rsqrt_fast.c: a branch-free count of the leading zero bits of a
 * 32-bit word, by binary search over shifts of 16, 8, 4, 2 and 1 places.
 */
module LeadingZeros {
  import opened Word

  /** The two variables the source updates: the count `r` and the shifted word `x`. */
  datatype Scan = Scan(r: nat, x: u32)

  /**
   * One round of the source: `c = (x < limit) << log; r += c; x <<= c;`.
   * The last round has no `<< log`, which is a shift by 0.
   */
  function Round(s: Scan, limit: u32, log: nat): Scan
    requires log <= 4
  {
    ShlFlag(s.x < limit, log);
    Pow2Mono(log, 4);
    var c := Shl(Flag(s.x < limit), log);
    Scan(s.r + c, Shl(s.x, c))
  }

  /** The five rounds, starting from `r = 0` and the argument. */
  function Rounds(x: u32): Scan {
    var s1 := Round(Scan(0, x), 0x0001_0000, 4);
    var s2 := Round(s1, 0x0100_0000, 3);
    var s3 := Round(s2, 0x1000_0000, 2);
    var s4 := Round(s3, 0x4000_0000, 1);
    Round(s4, 0x8000_0000, 0)
  }

  /** The rounds, then `r += x == 0`, which makes clz(0) come out as 32. */
  function Clz(x: u32): nat {
    var s := Rounds(x);
    s.r + Flag(s.x == 0)
  }

  /**
   * What holds of the scan of x0 once the top `k` bits of the shifted word
   * are known to hold a one: nothing has been shifted out, so the word is
   * x0 * 2^r, and a zero word has had every shift applied.
   */
  ghost predicate Scanned(x0: u32, s: Scan, k: nat)
  {
    k <= 32 && s.x == x0 * Pow2(s.r) &&
    (x0 == 0 ==> s.r == 32 - k) &&
    (x0 != 0 ==> Pow2(32 - k) <= s.x)
  }

  /**
   * A round with shift w = 2^log halves the window: if the top 2w bits hold
   * a one, then afterwards the top w bits do.
   */
  lemma RoundHalves(x0: u32, s: Scan, limit: u32, log: nat, w: nat)
    requires log <= 4 && w == Pow2(log) && w <= 16 && limit == Pow2(32 - w)
    requires Scanned(x0, s, 2 * w)
    ensures Scanned(x0, Round(s, limit, log), w)
  {
    ShlFlag(s.x < limit, log);
    if s.x < limit {
      RoundShifts(x0, s, limit, log, w);
    } else {
      assert Round(s, limit, log) == Scan(s.r, Shl(s.x, 0));
      ShlExact(s.x, 0);
    }
  }

  /** The round that shifts: the top w bits were zero, so w more zeros are counted. */
  lemma RoundShifts(x0: u32, s: Scan, limit: u32, log: nat, w: nat)
    requires log <= 4 && w == Pow2(log) && w <= 16 && limit == Pow2(32 - w)
    requires Scanned(x0, s, 2 * w) && s.x < limit
    ensures Scanned(x0, Round(s, limit, log), w)
  {
    ShlFlag(true, log);
    var s' := Round(s, limit, log);
    assert s' == Scan(s.r + w, Shl(s.x, w));
    WindowShift(s.x, w, x0 != 0);
    ShiftsCompose(x0, s.r, w, s.x);
  }

  /**
   * A word below 2^(32-w) shifted left by w loses nothing; one at least
   * 2^(32-2w) becomes at least 2^(32-w).
   */
  lemma WindowShift(x: u32, w: nat, nonzero: bool)
    requires 1 <= w <= 16 && x < Pow2(32 - w) && (nonzero ==> Pow2(32 - 2 * w) <= x)
    ensures Shl(x, w) == x * Pow2(w)
    ensures nonzero ==> Pow2(32 - w) <= Shl(x, w)
  {
    Pow2Word();
    Pow2Add(32 - w, w);
    MulStrict(x, Pow2(32 - w), Pow2(w));
    ShlExact(x, w);
    if nonzero {
      Pow2Add(32 - 2 * w, w);
      MulMono(Pow2(32 - 2 * w), x, Pow2(w));
    }
  }

  /** Shifting left by a, then by b, is shifting left by a + b. */
  lemma ShiftsCompose(x: nat, a: nat, b: nat, y: nat)
    requires y == x * Pow2(a)
    ensures y * Pow2(b) == x * Pow2(a + b)
  {
    Pow2Add(a, b);
    MulAssoc(x, Pow2(a), Pow2(b));
  }

  /**
   * After the five rounds the shifted word is x * 2^r, and its top bit is
   * set unless x is 0: each round halves the window holding the top set bit.
   */
  lemma RoundsScan(x: u32)
    ensures Scanned(x, Rounds(x), 1)
  {
    var s0 := Scan(0, x);
    var s1 := Round(s0, 0x0001_0000, 4);
    assert Scanned(x, s1, 16) by {
      Pow2Constants();
      RoundHalves(x, s0, 0x0001_0000, 4, 16);
    }
    var s2 := Round(s1, 0x0100_0000, 3);
    assert Scanned(x, s2, 8) by {
      Pow2Constants();
      RoundHalves(x, s1, 0x0100_0000, 3, 8);
    }
    var s3 := Round(s2, 0x1000_0000, 2);
    assert Scanned(x, s3, 4) by {
      Pow2Constants();
      RoundHalves(x, s2, 0x1000_0000, 2, 4);
    }
    var s4 := Round(s3, 0x4000_0000, 1);
    assert Scanned(x, s4, 2) by {
      Pow2Constants();
      RoundHalves(x, s3, 0x4000_0000, 1, 2);
    }
    assert Scanned(x, Round(s4, 0x8000_0000, 0), 1) by {
      Pow2Constants();
      RoundHalves(x, s4, 0x8000_0000, 0, 1);
    }
  }

  /** A word that x * 2^r fills to its top bit places x between 2^(31-r) and 2^(32-r). */
  lemma TopBitPosition(x: nat, r: nat)
    requires Pow2(31) <= x * Pow2(r) < Pow2(32)
    ensures r <= 31 && Pow2(31 - r) <= x < Pow2(32 - r)
  {
    if r >= 32 {
      Pow2Mono(32, r);
      MulMono(1, x, Pow2(r));
    }
    Pow2Add(31 - r, r);
    Pow2Add(32 - r, r);
    if x < Pow2(31 - r) {
      MulStrict(x, Pow2(31 - r), Pow2(r));
    }
    if Pow2(32 - r) <= x {
      MulMono(Pow2(32 - r), x, Pow2(r));
    }
  }

  /**
   * clz(0) is 32; for any other word the result r places the highest set bit
   * at position 31 - r, that is 2^(31-r) <= x < 2^(32-r).
   */
  lemma ClzSpec(x: u32)
    ensures Clz(x) <= 32
    ensures x == 0 <==> Clz(x) == 32
    ensures x != 0 ==> Pow2(31 - Clz(x)) <= x < Pow2(32 - Clz(x))
  {
    RoundsScan(x);
    var s := Rounds(x);
    assert Clz(x) == s.r + Flag(s.x == 0);
    if x != 0 {
      Pow2Word();
      TopBitPosition(x, s.r);
    }
  }
}
