# Fast reciprocal square root on RV32I: the integer helpers

`rsqrt_fast.c` is a bare-metal test program for an RV32I core. That core has
no multiply or divide instructions (no M extension). So the program carries
its own integer helpers:

- `memcpy`, a byte-by-byte copy;
- `clz`, count leading zeros by binary search;
- `udiv` and `umod`, restoring shift-subtract division;
- `umul`, shift-and-add multiplication, and `__mulsi3`, the compiler's hook for it;
- `mul32x32`, a full 64-bit product from four 16x16-bit partial products.

On these helpers it builds `rsqrt`, a Q16 fixed-point approximation of
1 / sqrt(x). `rsqrt` works in three steps:

1. It looks up a 32-entry table of 2^16 / sqrt(2^e).
2. It interpolates linearly between two neighbouring entries.
3. It refines that seed with one Newton step (`newton_step_q16_inline`).

The file also defines `print_hex` and `print_dec`, which write a word in
hexadecimal or decimal to the console. `rsqrt`, `print_hex`, `print_dec`
and `print_char` are `static` and never called in this file. `main` calls
the external routine `rsqrt_fast` on 1, 2, 4, 16 and 256 instead, stores
each result at a fixed address (0x4 to 0x14) with a volatile write, and then
loops forever.

Machine words are 32 bits: `uint32_t`, and also `unsigned long`, because
RV32 is ILP32. In the model they are the subset type `Word.u32` of `nat`.
The C operators are spelled out as functions on words:

- `<<`, `+`, `-` and `*` reduce modulo 2^32;
- `>>` divides;
- `&` and `|` work bit by bit;
- a comparison used as a number is 0 or 1.

The modules:

| file | module | models |
|---|---|---|
| word.dfy | `Word` | 32-bit words, the C operators on them, and their arithmetic facts |
| memcpy.dfy | `MemCopy` | `memcpy`, as a method over a byte array |
| clz.dfy | `LeadingZeros` | `clz`, as five halving rounds and a final zero test |
| soft_div.dfy | `SoftDiv` | `udiv` and `umod`, as loop methods |
| soft_mul.dfy | `SoftMul` | `umul` as a loop method and `__mulsi3` as a method that calls it; `mul32x32` as a function returning the two words |
| newton.dfy | `Newton` | `newton_step_q16_inline` |
| rsqrt.dfy | `ReciprocalSqrt` | `rsqrt_table`, the exponent, the fraction, the interpolated seed and `rsqrt` |
| print.dfy | `Print` | the digit building of `print_hex` and `print_dec`, as methods over a 20-character buffer |

## Model

| member | source | states |
|---|---|---|
| MemCopy.Memcpy | 3-pipeline/csrc/rsqrt_fast.c:31-38 | returns dest; afterwards memory is the old memory with bytes [dest, dest+n) replaced by old bytes [src, src+n), and every other byte unchanged |
| MemCopy.CopyContents | 3-pipeline/csrc/rsqrt_fast.c:35-36 | byte by byte: byte dest+j of the copy is source byte src+j, and every byte outside the destination range keeps its value |
| MemCopy.CopyIdempotent | 3-pipeline/csrc/rsqrt_fast.c:31-38 | for disjoint ranges, a second copy with the same arguments leaves memory as the first one left it |
| LeadingZeros.Round | 3-pipeline/csrc/rsqrt_fast.c:44-58 | one round `c = (x < limit) << log; r += c; x <<= c` (the last one without `<< log`); it has no contract of its own, and RoundHalves states what a round achieves |
| LeadingZeros.Rounds | 3-pipeline/csrc/rsqrt_fast.c:43-58 | the five rounds from r = 0 with limits 2^16, 2^24, 2^28, 2^30 and 2^31; no contract of its own, RoundsScan states their result |
| LeadingZeros.Clz | 3-pipeline/csrc/rsqrt_fast.c:41-61 | the five rounds, then `r += x == 0`; no contract of its own, ClzSpec states its meaning |
| LeadingZeros.RoundHalves | 3-pipeline/csrc/rsqrt_fast.c:44-58 | each `c = (x < limit) << log; r += c; x <<= c` round halves the window: if the top bit is within the top 2w bits before the round, it is within the top w bits after it, and x stays the original x shifted left by r |
| LeadingZeros.WindowShift | 3-pipeline/csrc/rsqrt_fast.c:44-58 | shifting a value below 2^(32-w) left by w does not wrap; a value that was at least 2^(32-2w) becomes at least 2^(32-w) |
| LeadingZeros.RoundsScan | 3-pipeline/csrc/rsqrt_fast.c:43-58 | after the five rounds the shifted word is the original x times 2^r, nothing shifted out; for x != 0 its bit 31 is set, and for x == 0 r is 31, which the final `r += x == 0` makes 32 |
| LeadingZeros.ClzSpec | 3-pipeline/csrc/rsqrt_fast.c:41-61 | clz(x) <= 32; clz(x) == 32 exactly when x == 0; otherwise the highest set bit of x is bit 31 - clz(x) |
| SoftDiv.Udiv | 3-pipeline/csrc/rsqrt_fast.c:64-83 | the quotient is 0 when the divisor is 0, and otherwise the floor of dividend / divisor |
| SoftDiv.Umod | 3-pipeline/csrc/rsqrt_fast.c:85-102 | the remainder is 0 when the divisor is 0, and otherwise dividend mod divisor |
| SoftDiv.ConsumeBit | 3-pipeline/csrc/rsqrt_fast.c:74 | `(dividend >> i) & 1` is the next bit of the dividend; the prefix read so far doubles and takes that bit in |
| SoftDiv.RemainderStep | 3-pipeline/csrc/rsqrt_fast.c:72-79 | one turn of the loop takes the remainder of the bits read so far to the remainder of one bit more: the shift and or do not wrap, and the subtraction happens exactly when the divisor fits |
| SoftDiv.QuotientStep | 3-pipeline/csrc/rsqrt_fast.c:76-79 | setting bit i of the quotient exactly when the divisor fits keeps the quotient equal to (bits read so far) / divisor, scaled by 2^i |
| SoftMul.Umul | 3-pipeline/csrc/rsqrt_fast.c:105-115 | the result is a * b modulo 2^32 |
| SoftMul.MulSi3 | 3-pipeline/csrc/rsqrt_fast.c:118-121 | `__mulsi3(a, b)` is the C product a * b on 32-bit words |
| SoftMul.ShiftAddStep | 3-pipeline/csrc/rsqrt_fast.c:108-113 | one turn of the loop keeps result + a * b unchanged modulo 2^32 |
| SoftMul.LowBit | 3-pipeline/csrc/rsqrt_fast.c:109-110 | `if (b & 1) result += a` adds a exactly when b is odd |
| SoftMul.Mul32x32 | 3-pipeline/csrc/rsqrt_fast.c:185-203 | hi * 2^32 + lo is exactly a * b: no bit of the 64-bit product is lost |
| SoftMul.Halves | 3-pipeline/csrc/rsqrt_fast.c:187-188 | `x >> 16` and `x & 0xFFFF` are the high and low 16-bit halves of x |
| SoftMul.HalfProduct | 3-pipeline/csrc/rsqrt_fast.c:190-193 | the product of two 16-bit halves does not wrap |
| SoftMul.MidColumn | 3-pipeline/csrc/rsqrt_fast.c:196 | the middle-column sum stays below 3 * 2^16, so the two additions that form `mid` do not wrap |
| SoftMul.LowWord | 3-pipeline/csrc/rsqrt_fast.c:198 | `(p0 & 0xFFFF) \| (mid << 16)` is the low half of mid over the low half of p0 |
| SoftMul.HighWord | 3-pipeline/csrc/rsqrt_fast.c:199 | p3 plus the carries out of p1, p2 and mid, when their sum fits in a word |
| SoftMul.PartialProducts | 3-pipeline/csrc/rsqrt_fast.c:187-193 | the four partial products are exact, and by columns they add up to a * b |
| Newton.NewtonStep | 3-pipeline/csrc/rsqrt_fast.c:205-239 | the word-level step equals NewtonSpec: (y * ((3 * 2^16 - x * y^2 / 2^16) mod 2^32) + 2^16) / 2^17, each stage kept to 32 bits |
| Newton.ScaledSquare | 3-pipeline/csrc/rsqrt_fast.c:207-227 | `xy2 = termA + termB` is x * y^2 / 2^16 modulo 2^32 |
| Newton.ScaledSquareArith | 3-pipeline/csrc/rsqrt_fast.c:219-227 | the high word of x * y2Hi cannot reach the low word of x * y^2 / 2^16, so termA and termB suffice |
| Newton.ThreeMinus | 3-pipeline/csrc/rsqrt_fast.c:231 | `(3 << 16) - xy2` is 3 * 2^16 - xy2 modulo 2^32 |
| Newton.RoundedProduct | 3-pipeline/csrc/rsqrt_fast.c:233-238 | adding 2^16 with the carry and shifting the pair down by 17 gives (y * term + 2^16) / 2^17 modulo 2^32: y * term / 2^17 rounded to nearest |
| Newton.HighWordRoom | 3-pipeline/csrc/rsqrt_fast.c:236-237 | the high word of a product of two words is at most 2^32 - 2, so adding the carry to it cannot wrap |
| Newton.RoundingCarry | 3-pipeline/csrc/rsqrt_fast.c:236-237 | the carry test `lo_plus < lo` makes the two-word addition of 2^16 exact |
| Newton.ShiftDownPair | 3-pipeline/csrc/rsqrt_fast.c:238 | `(hi << 15) \| (lo >> 17)` is the two-word value hi:lo divided by 2^17, modulo 2^32 |
| Newton.SpecAtRoot | 3-pipeline/csrc/rsqrt_fast.c:205-239 | NewtonSpec has the exact reciprocal square root as a fixed point |
| Newton.NewtonFixedPoint | 3-pipeline/csrc/rsqrt_fast.c:205-239 | when x * y^2 == 2^32, i.e. y is exactly 2^16 / sqrt(x), the step returns y unchanged |
| ReciprocalSqrt.YNext | 3-pipeline/csrc/rsqrt_fast.c:270 | `y_next`: entry e + 1 of the table, or 1 when e is 31; no contract of its own, TableSteps bounds it |
| ReciprocalSqrt.TableSteps | 3-pipeline/csrc/rsqrt_fast.c:178-181 | y_next is at least 1: the table does not increase, and each entry is less than 2^16 above the next (the last one above 1) |
| ReciprocalSqrt.TableEven | 3-pipeline/csrc/rsqrt_fast.c:178-181 | entry 2k is exactly 2^(16-k) = 2^16 / sqrt(2^(2k)) |
| ReciprocalSqrt.TableAccurate | 3-pipeline/csrc/rsqrt_fast.c:178-181 | every entry t at position e is within one of 2^16 / sqrt(2^e): (t-1)^2 * 2^e < 2^32 <= (t+1)^2 * 2^e |
| ReciprocalSqrt.Exponent | 3-pipeline/csrc/rsqrt_fast.c:266 | `31 - clz(x)` does not wrap for x != 0, and is the e with 2^e <= x < 2^(e+1) |
| ReciprocalSqrt.Offset | 3-pipeline/csrc/rsqrt_fast.c:272 | `x - (1u << exp)` is the exact offset x - 2^e |
| ReciprocalSqrt.FractionDown | 3-pipeline/csrc/rsqrt_fast.c:272-273 | for e >= 16, the right shift is (x - 2^e) * 2^16 / 2^e, and it is below 2^16 |
| ReciprocalSqrt.FractionUp | 3-pipeline/csrc/rsqrt_fast.c:272-273 | for e < 16, the left shift does not wrap, is (x - 2^e) * 2^16 / 2^e, and is below 2^16 |
| ReciprocalSqrt.Fraction | 3-pipeline/csrc/rsqrt_fast.c:272-273 | the fraction is the position of x between 2^e and 2^(e+1) in Q16: (x - 2^e) * 2^16 / 2^e, below 2^16 |
| ReciprocalSqrt.SeedBetween | 3-pipeline/csrc/rsqrt_fast.c:276 | the interpolation does not wrap, and its `umul` is exact, so its value lies between y_next and y_base |
| ReciprocalSqrt.Seed | 3-pipeline/csrc/rsqrt_fast.c:269-276 | the seed lies between y_next and y_base, and is y_base minus (y_base - y_next) * fraction / 2^16 |
| ReciprocalSqrt.Rsqrt | 3-pipeline/csrc/rsqrt_fast.c:260-283 | 0xFFFFFFFF for 0; 1 for 0xFFFFFFFF; otherwise NewtonSpec applied to the interpolated seed |
| ReciprocalSqrt.ExponentOfPower | 3-pipeline/csrc/rsqrt_fast.c:266 | the exponent of 2^k is k |
| ReciprocalSqrt.FractionOfPower | 3-pipeline/csrc/rsqrt_fast.c:272-273 | the fraction of a power of two is 0 |
| ReciprocalSqrt.SeedOfPower | 3-pipeline/csrc/rsqrt_fast.c:269-276 | the seed for 4^k is the exact table entry 2^(16-k) |
| ReciprocalSqrt.RsqrtPowerOfFour | 3-pipeline/csrc/rsqrt_fast.c:260-283 | rsqrt is exact on powers of four: rsqrt(4^k) == 2^(16-k) == 2^16 / sqrt(4^k), for k < 16 |
| Print.PrintHex | 3-pipeline/csrc/rsqrt_fast.c:124-145 | the text handed to `printstr` is the lowercase hexadecimal digits of val without leading zeros ("0" for 0), then a newline |
| Print.PrintDec | 3-pipeline/csrc/rsqrt_fast.c:148-168 | the text handed to `printstr` is the decimal digits of val, computed by `umod` and `udiv`, then a newline |
| Print.PushDigit | 3-pipeline/csrc/rsqrt_fast.c:135-140 | one turn of the digit loop moves the last digit of val from the digits still to write to the front of those written |
| Print.DigitsFit | 3-pipeline/csrc/rsqrt_fast.c:126-140 | a 32-bit value has at most 8 hexadecimal and 10 decimal digits, so the 20-character buffer never runs out |
| Print.DigitChar | 3-pipeline/csrc/rsqrt_fast.c:137 | the character for a digit below 16 reads back as that digit, and it is one of '0'..'9' exactly when the digit is below 10 |
| Print.DigitsValue | 3-pipeline/csrc/rsqrt_fast.c:135-140 | the digits produced read back as the value |
| Print.DigitsNumeral | 3-pipeline/csrc/rsqrt_fast.c:135-140 | the digits produced are digits of the base, with no leading zero |
| Print.ValueDigits | 3-pipeline/csrc/rsqrt_fast.c:135-140 | conversely, every such numeral is the digit string of its value, so printing is a bijection onto numerals |
| Print.SpellValue | 3-pipeline/csrc/rsqrt_fast.c:124-145 | the printed text ends in the newline, has at least one digit, and reads back as the value |
| Word.OrAdd | 3-pipeline/csrc/rsqrt_fast.c:198 | or-ing a value shifted above k bits with one below 2^k is addition, as in the word assembly of `mul32x32` |
| Word.BitAndLowMask | 3-pipeline/csrc/rsqrt_fast.c:187 | `x & (2^k - 1)` is x mod 2^k |

## Left out

- `printstr`, the `TEST_LOGGER` macro and `print_char` write to the console. They are I/O. `Print.PrintHex` and `Print.PrintDec` return the text they would hand to `printstr`.
- `get_cycles`, `get_instret` and `rsqrt_fast` are external routines whose bodies are not part of this file. Only their declarations are there, so they are not modelled.
- `main` and the `RSQRT_INPUTS` list are not modelled. `main` calls the external `rsqrt_fast`, not `rsqrt`, and stores its results at fixed addresses; `RSQRT_INPUTS` is never used.
- Machine code and the other files of the repository (the processor, its SoC and other test programs) are not part of this model.
- ReciprocalSqrt.Rsqrt: states the computation exactly: special cases, then the Newton step on the interpolated seed. It does not bound the error against 1 / sqrt(x). The only values proved exact are powers of four (`RsqrtPowerOfFour`). A general error bound would need real arithmetic, which the source itself never states.
- ReciprocalSqrt.Seed: uses `Word.Mul`, the C product of two words, where the source calls `umul`. `SoftMul.Umul` is proved to compute `Word.Mul`. `Seed` is a function, and a function cannot call the `Umul` method.
- SoftMul.Mul32x32: each C `*` between 16-bit halves is `Word.Mul`. Without the M extension the compiler turns that `*` into a call to `__mulsi3`. `SoftMul.MulSi3` is proved to return `Word.Mul`.
- MemCopy.Memcpy: memory is one byte array, and pointers are indices into it. The source's `while (n--)` copies front to back, so overlapping ranges would give a result that depends on the direction. Overlap is excluded by a requires, as in section 7.24.2.1 of ISO C11. Pointer arithmetic past the end of the address space is not modelled.
- Print.PrintDec: the digit character is `'0' + umod(val, 10)`; the model writes it through the same `DigitChar` as `print_hex`, which for digits below 10 is the same character.
- The comment above `rsqrt_table` calls y a Q0.32 number. The code treats y as Q16: the table holds 2^16 / sqrt(2^e), and `rsqrt(1)` is 65536. The model follows the code.
