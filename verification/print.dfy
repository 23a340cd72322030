/**
 * The digit building of `print_hex` and `print_dec` from rsqrt_fast.c: the
 * value is written into a 20-character buffer from the end backwards, a
 * newline last, and the filled tail of the buffer is what goes to the
 * console. Here each method returns that tail.
 */
module Print {
  import opened Word
  import opened SoftDiv

  /**
   * The character for digit d: '0'..'9', then 'a'..'f'. Each character
   * reads back as its digit.
   */
  function DigitChar(d: nat): (c: char)
    requires d < 16
    ensures DigitValue(c) == d
    ensures d < 10 <==> '0' <= c <= '9'
  {
    if d < 10 then ('0' as int + d) as char else ('a' as int + d - 10) as char
  }

  /** The digit a character stands for ('0'..'9', 'a'..'f'; anything else reads as 0). */
  function DigitValue(c: char): nat {
    if '0' <= c <= '9' then c as int - '0' as int
    else if 'a' <= c <= 'f' then c as int - 'a' as int + 10
    else 0
  }

  /** c is a digit of the given base. */
  predicate IsDigit(c: char, base: nat) {
    DigitValue(c) < base && DigitValue(c) < 16 && DigitChar(DigitValue(c)) == c
  }

  /** The digits of v, most significant first, without leading zeros; none for 0. */
  function Digits(v: nat, base: nat): string
    requires 2 <= base <= 16
    decreases v
  {
    if v == 0 then [] else Digits(v / base, base) + [DigitChar(v % base)]
  }

  /** The text handed to `printstr`: the digits ("0" for zero) and a newline. */
  function Spell(v: nat, base: nat): string
    requires 2 <= base <= 16
  {
    (if v == 0 then "0" else Digits(v, base)) + "\n"
  }

  /** The number a string of digits denotes. */
  function Value(s: string, base: nat): nat {
    if s == [] then 0 else Value(s[..|s| - 1], base) * base + DigitValue(s[|s| - 1])
  }

  /** A numeral: digits of the base only, and no leading zero. */
  predicate IsNumeral(s: string, base: nat) {
    (forall i :: 0 <= i < |s| ==> IsDigit(s[i], base)) && (|s| > 0 ==> s[0] != '0')
  }

  // ---------------------------------------------------------------------
  // print_hex and print_dec
  // ---------------------------------------------------------------------

  /** `print_hex`: the lowercase hexadecimal digits of val and a newline. */
  method PrintHex(val: u32) returns (text: string)
    ensures text == Spell(val, 16)
  {
    var buf := new char[20];
    var p := 19;
    buf[p] := '\n';
    p := p - 1;
    if val == 0 {
      buf[p] := '0';
      p := p - 1;
    } else {
      var v := val;
      ghost var written := "\n";
      DigitsFit(val);
      while v > 0
        invariant -1 <= p <= 18 && buf[p + 1..] == written
        invariant Digits(val, 16) + "\n" == Digits(v, 16) + written
        invariant |Digits(v, 16)| <= p + 1
        decreases v
      {
        var digit := And(v, 0xF);
        assert digit == v % 16 by {
          AndLow4(v);
        }
        buf[p] := DigitChar(digit);
        assert buf[p..] == [buf[p]] + written;
        assert Shr(v, 4) == v / 16 by {
          Pow2Constants();
        }
        PushDigit(val, v, Shr(v, 4), 16, written);
        written := [buf[p]] + written;
        p := p - 1;
        v := Shr(v, 4);
      }
    }
    p := p + 1;
    text := buf[p..];
  }

  /** `print_dec`: the decimal digits of val, by `umod` and `udiv`, and a newline. */
  method PrintDec(val: u32) returns (text: string)
    ensures text == Spell(val, 10)
  {
    var buf := new char[20];
    var p := 19;
    buf[p] := '\n';
    p := p - 1;
    if val == 0 {
      buf[p] := '0';
      p := p - 1;
    } else {
      var v := val;
      ghost var written := "\n";
      DigitsFit(val);
      while v > 0
        invariant -1 <= p <= 18 && buf[p + 1..] == written
        invariant Digits(val, 10) + "\n" == Digits(v, 10) + written
        invariant |Digits(v, 10)| <= p + 1
        decreases v
      {
        var digit := Umod(v, 10);
        buf[p] := DigitChar(digit);
        assert buf[p..] == [buf[p]] + written;
        var next := Udiv(v, 10);
        PushDigit(val, v, next, 10, written);
        written := [buf[p]] + written;
        p := p - 1;
        v := next;
      }
    }
    p := p + 1;
    text := buf[p..];
  }

  /**
   * One turn of the digit loop: the last digit of v moves from the digits
   * still to write to the front of those written.
   */
  lemma PushDigit(val: nat, v: nat, q: nat, base: nat, tail: string)
    requires 2 <= base <= 16 && v > 0 && q == v / base
    requires Digits(val, base) + "\n" == Digits(v, base) + tail
    ensures Digits(val, base) + "\n" == Digits(q, base) + ([DigitChar(v % base)] + tail)
    ensures |Digits(q, base)| + 1 == |Digits(v, base)|
  {
    assert Digits(v, base) == Digits(q, base) + [DigitChar(v % base)];
  }

  // ---------------------------------------------------------------------
  // Properties of the digits
  // ---------------------------------------------------------------------

  /** base^n */
  function Power(base: nat, n: nat): nat {
    if n == 0 then 1 else base * Power(base, n - 1)
  }

  /** A value below base^n has at most n digits. */
  lemma {:induction false} DigitsLength(v: nat, base: nat, n: nat)
    requires 2 <= base <= 16 && v < Power(base, n)
    ensures |Digits(v, base)| <= n
    decreases n
  {
    if v != 0 {
      assert n > 0;
      DivLeft(v, base);
      assert v / base < Power(base, n - 1) by {
        DivMod(v, base);
        if v / base >= Power(base, n - 1) {
          MulMono(Power(base, n - 1), v / base, base);
        }
      }
      DigitsLength(v / base, base, n - 1);
    }
  }

  /**
   * A 32-bit value has at most 8 hexadecimal and at most 10 decimal digits,
   * so the 20-character buffer never runs out.
   */
  lemma DigitsFit(v: u32)
    ensures |Digits(v, 16)| <= 8 && |Digits(v, 10)| <= 10
  {
    assert Power(16, 8) == W;
    assert Power(10, 10) == 10_000_000_000;
    DigitsLength(v, 16, 8);
    DigitsLength(v, 10, 10);
  }

  /** Reading the digits back gives the value. */
  lemma {:induction false} DigitsValue(v: nat, base: nat)
    requires 2 <= base <= 16
    ensures Value(Digits(v, base), base) == v
    decreases v
  {
    if v != 0 {
      DivLeft(v, base);
      var s := Digits(v / base, base);
      var d := v % base;
      var t := s + [DigitChar(d)];
      assert Value(t, base) == Value(s, base) * base + d by {
        assert t[..|t| - 1] == s;
      }
      DigitsValue(v / base, base);
      DivMod(v, base);
    }
  }

  /** The digits form a numeral: only digits of the base, no leading zero. */
  lemma {:induction false} DigitsNumeral(v: nat, base: nat)
    requires 2 <= base <= 16
    ensures IsNumeral(Digits(v, base), base)
    decreases v
  {
    if v != 0 {
      DivLeft(v, base);
      DigitsNumeral(v / base, base);
      if v / base == 0 {
        assert v % base != 0;
      }
    }
  }

  /** A nonempty numeral denotes a positive value. */
  lemma {:induction false} NumeralPositive(s: string, base: nat)
    requires 2 <= base <= 16 && IsNumeral(s, base) && |s| > 0
    ensures Value(s, base) > 0
    decreases |s|
  {
    var s' := s[..|s| - 1];
    if |s'| > 0 {
      assert s'[0] == s[0];
      assert IsNumeral(s', base);
      NumeralPositive(s', base);
      MulMono(1, Value(s', base), base);
    } else {
      assert s[0] != '0' && IsDigit(s[0], base);
    }
  }

  /** Conversely, every numeral is the digit string of its value. */
  lemma {:induction false} ValueDigits(s: string, base: nat)
    requires 2 <= base <= 16 && IsNumeral(s, base)
    ensures Digits(Value(s, base), base) == s
    decreases |s|
  {
    if |s| > 0 {
      var s' := s[..|s| - 1];
      var c := s[|s| - 1];
      var v := Value(s, base);
      assert IsDigit(c, base);
      assert IsNumeral(s', base) by {
        if |s'| > 0 {
          assert s'[0] == s[0];
        }
      }
      NumeralPositive(s, base);
      DivModUnique(v, base, Value(s', base), DigitValue(c));
      ValueDigits(s', base);
      assert s == s' + [c];
    }
  }

  /**
   * What `print_hex` and `print_dec` emit reads back as the value, and ends
   * with the newline.
   */
  lemma SpellValue(v: nat, base: nat)
    requires 2 <= base <= 16
    ensures var t := Spell(v, base);
      |t| >= 2 && t[|t| - 1] == '\n' && Value(t[..|t| - 1], base) == v
  {
    var t := Spell(v, base);
    if v == 0 {
      assert t[..|t| - 1] == "0";
      assert Value("0", base) == Value([], base) * base + DigitValue('0');
    } else {
      DigitsNumeral(v, base);
      DigitsValue(v, base);
      assert t[..|t| - 1] == Digits(v, base);
      assert |Digits(v, base)| >= 1;
    }
  }
}
