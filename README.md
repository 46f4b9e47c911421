# MyBigNumber in Dafny

This project models the C++ library MyBigNumber in Dafny. The library provides arbitrary-precision signed
integers and rational numbers on top of them. The model has three layers, following the library's classes.

- **`integer_container`**: the magnitude. It is a little-endian sequence of 32-bit limbs, and its value is
  `Val(s) = sum of s[i] * 2^(32 i)` (`Limbs.Val`). A container is *normalized* when it has no trailing
  (most significant) zero limb, so zero is the empty sequence.
  - `limbs.dfy`: `normalize`, the `high_bit`/`low_bit`/`combine_bit` helpers, the constructors and
    `is_zero`/`is_one`.
  - `compare.dfy`: `== > < >= <=`.
  - `shift.dfy`: `>>= <<= >> <<`.
  - `bitwise.dfy`: the limb-wise `| & ^`, and the single-bit `bit_modifier`.
  - `bititer.dfy`: the bit iterators, `bit_end`, and the `bit_modifier` bound to a limb array.
- **`integer`**: a sign flag plus a magnitude. `Integers.Value` is the signed value, and a negative zero
  counts as 0. `Integers.Canonical` is the form `integer::normalize` produces: normalized, and no sign on
  zero.
  - `integer.dfy`: the representation, comparisons, `abs`/`opposite`, shifts and bitwise sign rules.
  - `integer_arith.dfy`: `abs_add`, `abs_sub_abs`, `abs_sub`, `abs_mult_unit`, `abs_mult`, `+ - *` and
    `++ --` with `abs_self_incre`/`abs_self_decre`.
  - `integer_div.dfy`: `make_div_unit`, the bit-by-bit long division `make_div`, `abs_div`/`abs_mod` and
    `/ %`.
  - `integer_text.dfy`: the string constructor and `ToString`.
  - `integer_gcd.dfy`: `gcd` and `lcm`.
- **`rational_number`**: a class whose two `integer` fields are updated in place by `normalize`,
  `reduction`, `*=` and `/=`. The encoding:
  - +inf is (1, 0);
  - -inf is (-1, 0);
  - NaN is (0, 0);
  - every finite value is a reduced fraction with a positive denominator.

  Two files:
  - `rational_values.dfy` defines the specification on pairs of integers: `NormalizeValues`,
    `SumValues`, `ProductValues` and so on, the comparison predicates, and lemmas that these are the
    exact fraction operations.
  - `rational.dfy` holds the `Rational` class. Its methods follow the source's branches, and their
    contracts tie the new fields to the specification functions.

How the library's code becomes Dafny:
- Code that mutates `*this` becomes a method that takes the old value and returns the new one. Examples are
  the ripple loops, the shift loops and `++`. Each limb loop is a `while` loop over a local copy, with the
  invariants that relate the limbs written so far to `Val`.
- `make_div` writes quotient bits through a bit iterator into a buffer of fixed size. The model keeps that
  buffer as an `array<Limb>` and the iterator as a `BitIterator` object.
- Errors that the source throws become a `Result` value: division or remainder by zero, and a non-digit in
  the string constructor.

## Model

| member | source | states |
|---|---|---|
| `Limbs.Trimmed` | integer_container.h:42-46 | the normalized form: no trailing zero limb, a prefix of the input with only zero limbs removed, the same value; a normalized input is returned unchanged |
| `Limbs.TrimmedIdempotent` | integer_container.h:42-46 | normalizing twice is normalizing once |
| `Limbs.Normalize` | integer_container.h:42-46 | the pop loop yields exactly the normalized form |
| `Limbs.ValInjective` | integer_container.h:42-46 | two normalized containers with the same value are the same sequence |
| `Limbs.CombineBit` | integer_container.h:422-434 | `high_bit` and `low_bit` of `combine_bit(h, l)` give back `h` and `l` |
| `Limbs.CombineSplit` | integer_container.h:422-434 | `combine_bit(high_bit(v), low_bit(v)) == v` for every double-width `v` |
| `Limbs.FromUnit` | integer_container.h:439 | one limb gives a normalized container of that value, empty exactly for 0 |
| `Limbs.FromDoubleUnit` | integer_container.h:442-445 | a double-width value gives a normalized container of at most two limbs with that value, empty exactly for 0 |
| `Limbs.IsZero` | integer_container.h:472-474 | true exactly when the container is empty, so a container holding only zero limbs is reported nonzero; on a normalized container, true exactly when the value is 0 |
| `Limbs.IsOne` | integer_container.h:476-478 | true only for value 1, and true for every normalized container of value 1 |
| `Limbs.ValShorterIsSmaller` | integer_container.cpp:19-28 | a container shorter than a normalized one has a smaller value |
| `Limbs.ValTopDifference` | integer_container.cpp:19-28 | for equal lengths, the most significant differing limb decides the order of the values |
| `LimbCompare.Equal` | integer_container.cpp:6-17 | true iff same length and identical limbs; on normalized containers iff the values are equal |
| `LimbCompare.Greater` | integer_container.cpp:19-28 | true iff the other container is below in the length-first, then most-significant-limb order |
| `LimbCompare.Less` | integer_container.cpp:30-39 | true iff this container is below the other in that order |
| `LimbCompare.GreaterEq` | integer_container.h:490-492 | true iff equal or greater |
| `LimbCompare.LessEq` | integer_container.h:494-496 | true iff equal or less |
| `LimbCompare.MagLessIsNumeric` | integer_container.cpp:19-39 | on normalized containers the container order is the numeric order of the values |
| `LimbCompare.MagTrichotomy` | integer_container.cpp:19-39 | exactly one of `<`, `==`, `>` holds, so `x < x` and `x > x` are false |
| `LimbCompare.SameLengthInjective` | integer_container.cpp:6-17 | equal lengths and equal values mean identical limbs |
| `LimbShift.WideShiftIsZero` | integer_container.cpp:41-45 | shifting right by at least 32 times the size leaves value 0 |
| `LimbShift.DropThenShift` | integer_container.cpp:42-44 | dropping min(k / 32, size) low limbs and then shifting by k % 32 bits divides the value by 2^k |
| `LimbShift.ShiftRightLimbs` | integer_container.cpp:46-55 | the `last_bit`/`now_bit` walk from the top limb down divides the value by 2^sh and keeps the length |
| `LimbShift.ShiftRightAssign` | integer_container.cpp:41-58 | `>>= k` gives floor(value / 2^k); normalized unless k % 32 == 0 on an unnormalized input (the early return); empty when k >= 32 size |
| `LimbShift.ShiftLeftLimbs` | integer_container.cpp:65-75 | the walk from the bottom limb up multiplies the value by 2^sh and appends one carry limb |
| `LimbShift.ShiftLeftAssign` | integer_container.cpp:60-79 | `<<= k` gives value times 2^k, normalized |
| `LimbShift.ShiftSplit` | integer_container.cpp:61-76 | multiplying by 2^k is multiplying by 2^(k % 32) and inserting k / 32 zero limbs |
| `LimbShift.ShiftRight` | integer_container.h:504-508 | the copying `>>` has the value and normalization of `>>=` |
| `LimbShift.ShiftLeft` | integer_container.h:512-519 | the copying `<<` gives value times 2^k, normalized |
| `LimbBitwise.GetIsBit` | integer_container.h:64-66 | `(1U << pos) & unit` is nonzero exactly when bit pos of the limb is set |
| `LimbBitwise.SetLimbBitSpec` | integer_container.h:81-88 | `set_value(b)` makes bit pos equal to b and leaves the other 31 bits unchanged |
| `LimbBitwise.LimbOrFacts` | integer_container.cpp:81-97 | the limb bitwise or has identity 0, commutes, is idempotent, is at least its operand and is nonzero for a nonzero operand |
| `LimbBitwise.LimbAndFacts` | integer_container.cpp:99-108 | the limb `&` commutes, is idempotent and is at most its operand |
| `LimbBitwise.LimbXorFacts` | integer_container.cpp:110-126 | the limb `^` has identity 0, commutes, cancels itself and is its own inverse |
| `LimbBitwise.Or` | integer_container.cpp:81-97 | the result has the longer length and limb i is the zero-extended bitwise or of a_i and b_i |
| `LimbBitwise.OrSpecProperties` | integer_container.cpp:81-97 | bitwise or keeps normalization, commutes, is idempotent, has the empty container as identity, and its value is at least either operand's |
| `LimbBitwise.And` | integer_container.cpp:99-108 | the limb-wise `a_i & b_i` over the shorter length, then normalized |
| `LimbBitwise.AndSpecProperties` | integer_container.cpp:99-108 | `&` commutes, is idempotent, and its value is at most either operand's |
| `LimbBitwise.Xor` | integer_container.cpp:110-126 | as written: the zero-extended `a_i ^ b_i` over the longer length, not trimmed |
| `LimbBitwise.XorSpecProperties` | integer_container.cpp:110-126 | `^` commutes, and `x ^ x` is all zero limbs of the same length |
| `LimbBitwise.XorSpecInvolution` | integer_container.cpp:110-126 | xor-ing with b twice gives back the value of a |
| `LimbBitwise.XorLeavesTrailingZero` | integer_container.cpp:110-126 | `[1] ^ [1]` comes out as `[0]`, which is not normalized |
| `LimbBitwise.XorNormalized` | integer_container.cpp:110-126 | the container xor followed by normalization is normalized with the same value |
| `BitIter.OffsetRoundTrip` | integer_container.h:110-115 | an iterator (limb index, pos in [0, 32)) and its bit index 32 it + pos determine each other |
| `BitIter.Plus` | integer_container.h:183-187 | `x + k` is the iterator k bits further on |
| `BitIter.Minus` | integer_container.h:200-204 | `x - k` is the iterator k bits back |
| `BitIter.Diff` | integer_container.h:206-208 | the difference of two iterators is the difference of their bit indices |
| `BitIter.PosLessIsOffsetOrder` | integer_container.h:226-228 | the iterator `<` (limb first, then pos) is the order of the bit indices, and equality is equality of bit indices |
| `BitIter.PlusMinusRoundTrip` | integer_container.h:172-208 | `(x + k) - x == k` and `(x + k) - k == x` |
| `BitIter.StepRoundTrip` | integer_container.h:144-164 | `++` then `--` restores the iterator, and so does `--` then `++` |
| `BitIter.BitIterator.constructor` | integer_container.h:267 | the position is reduced modulo 32 |
| `BitIter.BitIterator.Increment` | integer_container.h:144-149 | prefix `++` moves one bit on, wrapping pos 31 to pos 0 of the next limb, and keeps pos in [0, 32) |
| `BitIter.BitIterator.Decrement` | integer_container.h:158-164 | prefix `--` moves one bit back, from pos 0 to pos 31 of the previous limb |
| `BitIter.BitIterator.AddAssign` | integer_container.h:172-181 | `+= k` moves k bits on and keeps pos in [0, 32) |
| `BitIter.BitIterator.SubAssign` | integer_container.h:189-198 | `-= k` moves k bits back and keeps pos in [0, 32) |
| `BitIter.ValBitInLimb` | integer_container.h:210-212 | bit pos of limb i is bit 32 i + pos of the value |
| `BitIter.DerefIsValueBit` | integer_container.h:210-216 | `*(bit_begin() + k)` is bit k of the value for every k inside the container |
| `BitIter.BitLengthOfVal` | integer_container.h:572-586 | the bit length of a normalized container is 32 (size - 1) plus the bit length of its top limb |
| `BitIter.BitEnd` | integer_container.h:556-586 | `bit_end() - bit_begin()` is the bit length of the value: 0 for zero, otherwise the highest set bit index + 1 |
| `BitIter.BitModifier.constructor` | integer_container.h:56 | binds a limb of the storage, with the position reduced modulo 32 |
| `BitIter.BitModifier.Get` | integer_container.h:64-66 | `get()` is bit pos of the bound limb |
| `BitIter.BitModifier.SetValue` | integer_container.h:81-88 | after `set_value(b)`, `get()` returns b, only the bound limb changes, and its other bits are unchanged |
| `Integers.CanonicalUnique` | integer.h:26-29 | each integer value has at most one normalized, sign-cleared representation |
| `Integers.CanonicalExists` | integer.h:26-29 | every integer value has such a representation |
| `Integers.NormalizeSigned` | integer.h:26-29 | `normalize` trims the magnitude, keeps the value, and clears the sign of zero |
| `Integers.FromNative` | integer.h:38-48 | the native-integer constructors give the canonical representation of their argument |
| `Integers.IsZero` | integer.h:88-90 | true exactly for value 0, a negative zero included |
| `Integers.ToBool` | integer.h:77-79 | true exactly for a nonzero value |
| `Integers.IsOne` | integer.h:92-94 | true only for value 1, and for every valid representation of 1 |
| `Integers.IsOneAbs` | integer.h:97-99 | true only for magnitude 1, and for every valid representation of +1 or -1 |
| `Integers.IsNegative` | integer.h:123-125 | on canonical integers, true exactly for negative values |
| `Integers.IsPositive` | integer.h:127-129 | true exactly for values above 0 |
| `Integers.AbsValue` | integer.h:102-104 | keeps the magnitude, clears the sign, value \|x\|, canonical for a valid input |
| `Integers.Opposite` | integer.h:107-109 | keeps the magnitude and flips the sign without normalizing: value -x, canonical for a nonzero canonical input |
| `Integers.OppositeOfZero` | integer.h:107-109 | the opposite of zero is a negative zero, valid but not canonical, and flipping back restores +0 |
| `Integers.Equal` | integer.h:131-133 | true iff same magnitude and same sign flag; on canonical integers iff the values are equal |
| `Integers.NotEqual` | integer.h:135-137 | the negation of `==` |
| `Integers.SignedOrder` | integer.h:139-155 | for different signs the non-negative side is larger; for equal signs the magnitude order decides, inverted for negatives; on canonical integers this flag-first order is the numeric order |
| `Integers.Greater` | integer.h:139-146 | for all inputs: with different flags, true iff x's flag is clear; with equal flags, the magnitude order, inverted for negatives (so 0 > -0); on canonical integers, true iff the value is greater |
| `Integers.SignedZeroOrderExample` | integer.h:139-155 | zero and a negative zero have the same value, yet 0 > -0 and -0 < 0 hold while -0 > 0 does not |
| `Integers.Less` | integer.h:148-155 | for all inputs, the flag-first order with the operands swapped (so -0 < 0); on canonical integers, true iff the value is smaller |
| `Integers.GreaterEq` | integer.h:157-159 | for all inputs, the negation of the swapped flag-first order (so -0 >= 0 is false); on canonical integers, true iff the value is at least the other |
| `Integers.LessEq` | integer.h:161-163 | for all inputs, the negation of the flag-first order (so 0 <= -0 is false); on canonical integers, true iff the value is at most the other |
| `Integers.ShiftRightAssign` | integer.h:165-168 | the magnitude becomes floor(\|x\| / 2^k), the sign is kept (a negative zero can result) |
| `Integers.ShiftRight` | integer.h:170-172 | the copying `>>` has the same result as `>>=` |
| `Integers.ShiftLeftAssign` | integer.h:174-177 | the value becomes x times 2^k, the sign flag is kept |
| `Integers.ShiftLeft` | integer.h:179-181 | the copying `<<` has the same result as `<<=` |
| `Integers.BitOr` | integer.h:184-192 | the magnitude is the container bitwise or, the sign is the or of the flags, and the magnitude is at least either operand's |
| `Integers.BitAnd` | integer.h:195-203 | the magnitude is the container `&`, the sign is the and of the flags, and the magnitude is at most either operand's |
| `Integers.BitXorAsWritten` | integer.h:206-214 | as written: the untrimmed container `^`, with the sign the exclusive or of the flags |
| `Integers.BitXor` | integer.h:206-214 | the same with the magnitude normalized, which keeps its value |
| `Integers.BitXorInvolution` | integer.h:206-214 | xor with the same operand twice gives the magnitude back |
| `Integers.XorTrimInvariant` | integer.h:206-214 | trimming zero limbs off an operand does not change the value of an xor |
| `IntegerArith.AbsAdd` | integer.cpp:33-58 | the magnitude becomes \|x\| + \|o\|, canonical, with the sign kept unless the sum is 0 |
| `IntegerArith.AddCommonLimbs` | integer.cpp:38-42 | after the first loop, done limbs plus carry equal the two prefixes |
| `IntegerArith.CarryThroughRest` | integer.cpp:43-48 | the carry runs through the rest of the longer this, keeping that equation |
| `IntegerArith.AppendRestOfOther` | integer.cpp:49-54 | the rest of the longer other is appended, keeping that equation, with a final carry of at most 1 |
| `IntegerArith.SubCommonLimbs` | integer.cpp:66-78 | the corrected first loop: done limbs plus o's prefix equal x's prefix plus borrow 2^(32 i) |
| `IntegerArith.PropagateBorrow` | integer.cpp:79-90 | the corrected second loop: the borrow runs through the limbs above o and `Val(m) + Val(o) == Val(x) + borrow 2^(32 size)` |
| `IntegerArith.AbsSubAbs` | integer.cpp:60-93 | for \|o\| <= \|x\| the magnitude becomes \|x\| - \|o\|, canonical |
| `IntegerArith.LostBorrowExample` | integer.cpp:67-78 | the first loop as written computes 2^65 - (2^65 - 2^32 + 1) as 2^64 + unit_max instead of unit_max |
| `IntegerArith.SecondLoopNeverExits` | integer.cpp:79-90 | the second loop as written never advances its index, so its guard stays true after any number of passes |
| `IntegerArith.AbsSub` | integer.cpp:95-104 | the magnitude becomes \|\|x\| - \|o\|\|; the sign flips exactly when \|x\| < \|o\| |
| `IntegerArith.Add` | integer.cpp:172-185 | `+` is the exact signed sum, canonical |
| `IntegerArith.Sub` | integer.cpp:187-200 | `-` is the exact signed difference, canonical |
| `IntegerArith.AbsMultUnit` | integer.cpp:116-128 | value \|x\| times u, one limb longer than x (so zero gives `[0]`), no sign |
| `IntegerArith.AbsMult` | integer.cpp:106-114 | value \|x\| times \|o\|, canonical, no sign |
| `IntegerArith.SignedProduct` | integer.cpp:202-219 | the product's sign is the exclusive or of the operand signs |
| `IntegerArith.Mul` | integer.cpp:202-219 | `*` is the exact signed product, canonical, +0 when either side is zero |
| `IntegerArith.AbsSelfIncre` | integer.h:338-361 | adds 1 to the magnitude; a limb is appended only when every limb is unit_max (empty becomes `[1]`); normalization is kept |
| `IntegerArith.DecrementLimbs` | integer.h:364-386 | the borrow loop subtracts 1 from a nonzero magnitude and keeps the length |
| `IntegerArith.AbsSelfDecre` | integer.h:377-388 | a nonzero magnitude decreases by 1 and is normalized; the sign is cleared if the result is 0 |
| `IntegerArith.Increment` | integer.h:255-264 | as written: prefix `++` adds 1 to the value of a canonical integer and gives a canonical result; a negative zero stays 0 |
| `IntegerArith.IncrementOfNegativeZero` | integer.h:255-264 | as written, `++` on a negative zero gives +0, not 1 |
| `IntegerArith.IncrementIntended` | integer.h:255-264 | corrected `++`: every valid integer, a negative zero included, goes up by exactly 1, with a canonical result |
| `IntegerArith.Decrement` | integer.h:272-285 | prefix `--` subtracts 1 from the value; zero of either sign becomes -1 |
| `IntegerDivision.MakeDivUnit` | integer.cpp:159-170 | for a limb d != 0, q d + r = \|x\| with r < d; q is canonical |
| `IntegerDivision.DividendWindow` | integer.cpp:131-140 | the first window holds the dividend's bits from the start position up, i.e. \|x\| / 2^start |
| `IntegerDivision.SetQuotientBit` | integer.cpp:145 | `*res_apply = true` sets quotient bit k, which was clear, adding 2^k to the buffer |
| `IntegerDivision.PullBit` | integer.cpp:150-151 | `im_int <<= 1` followed by writing the next dividend bit at bit 0 gives 2 im_int + that bit, and moves the iterator one bit back |
| `IntegerDivision.DivisionRound` | integer.cpp:143-153 | one round keeps the long-division invariant: remainder below the divisor, and quotient and remainder recompose the dividend's prefix |
| `IntegerDivision.DivisionStart` | integer.cpp:131-142 | the start position is bitlen(x) - bitlen(o), and the first window is below twice the divisor |
| `IntegerDivision.MakeDiv` | integer.cpp:130-157 | for 0 < \|o\| <= \|x\|, q \|o\| + r = \|x\| with r < \|o\|; both canonical and non-negative |
| `IntegerDivision.SetLowBit` | integer.cpp:150-151 | writing a bit at bit 0 of an even magnitude adds it, also when the magnitude is empty |
| `IntegerDivision.SetLowBitAsWritten` | integer.cpp:150-151 | as written: on an empty magnitude the written bit is lost |
| `IntegerDivision.LostBitExample` | integer.cpp:130-157 | the numbers of (2^33 + 1) % 2^32: bit lengths 34 and 33, a first window of 2^32 (equal to the divisor, so the subtraction empties it), a last bit of 1, and a true remainder of 1 |
| `IntegerDivision.AbsDiv` | integer.h:311-319 | floor(\|x\| / \|o\|), canonical, through the short path, `make_div_unit` or `make_div` |
| `IntegerDivision.AbsMod` | integer.h:321-329 | \|x\| mod \|o\|; when \|x\| < \|o\| the dividend is returned with its sign |
| `IntegerDivision.DivisionIdentity` | integer.cpp:221-239 | the truncating quotient and the remainder that takes the dividend's sign recompose the dividend, with \|rem\| < \|divisor\| |
| `IntegerDivision.TruncOfIntegers` | integer.cpp:221-239 | in terms of magnitudes: quotient magnitude floor(\|a\| / \|b\|) with the exclusive-or sign |
| `IntegerDivision.Div` | integer.cpp:221-229 | fails exactly on a zero divisor; otherwise the quotient truncated toward zero, canonical |
| `IntegerDivision.Mod` | integer.cpp:231-239 | fails exactly on a zero divisor; otherwise the remainder with the dividend's sign, canonical |
| `IntegerDivision.ModAsWritten` | integer.cpp:231-239 | as written: the remainder magnitude with the exclusive-or sign of the operands |
| `IntegerDivision.ModSignBreaksIdentity` | integer.cpp:236 | for 7 % -2 the written sign gives -1, and (7 / -2) (-2) + (7 % -2) is 5, not 7 |
| `IntegerText.Parse` | integer.cpp:7-31 | succeeds exactly when everything after an optional single sign is a decimal digit; the value is the signed decimal value, canonical (so `-0` is +0) |
| `IntegerText.ToString` | integer.cpp:241-254 | `"0"` for zero, otherwise the decimal digits of the magnitude with no leading zero, preceded by `-` iff negative |
| `IntegerText.DecimalDigitsAreDigits` | integer.cpp:241-254 | the printed digits are decimal digits denoting the magnitude, with no leading zero |
| `IntegerText.DigitsRoundTrip` | integer.cpp:7-31 | a digit string without a leading zero is the printed form of its value |
| `IntegerText.TextRoundTrip` | integer.cpp:241-254 | parsing the output of `ToString` is accepted and gives back the same value |
| `IntegerGcd.GcdDividesBoth` | integer.cpp:257-277 | the gcd of two magnitudes, not both 0, is positive and divides both |
| `IntegerGcd.GcdGreatest` | integer.cpp:257-277 | every common divisor divides the gcd |
| `IntegerGcd.GcdSwap` | integer.cpp:262-269 | the gcd does not depend on which argument is larger |
| `IntegerGcd.GcdSelf` | integer.cpp:259 | the gcd of equal arguments is their absolute value |
| `IntegerGcd.EuclidStep` | integer.cpp:270-275 | a remainder step keeps the gcd and makes the pair smaller |
| `IntegerGcd.Euclid` | integer.cpp:270-276 | the remainder loop ends with the gcd of the two magnitudes |
| `IntegerGcd.Gcd` | integer.cpp:257-277 | 0 if either argument is 0, otherwise the gcd of the absolute values, canonical |
| `IntegerGcd.Lcm` | integer.h:396-403 | \|other\| when the gcd is 0 because one side is 0, otherwise \|first / gcd * second\|, canonical |
| `IntegerGcd.LcmProperties` | integer.h:396-403 | for nonzero arguments lcm times gcd is \|a b\| and the lcm is a multiple of both |
| `RationalValues.Classification` | rational_number.h:54-76 | NaN, +inf, -inf, zero and nonzero finite exclude each other and cover every pair with d >= 0 |
| `RationalValues.NormalizeCorrect` | rational_number.cpp:5-24 | for d != 0 the normalized pair is in lowest terms with a positive denominator and has the ratio n/d |
| `RationalValues.NormalizeIdempotent` | rational_number.cpp:5-24 | normalizing a normalized pair changes nothing |
| `RationalValues.NormalizeOfInfinite` | rational_number.cpp:11-15 | n/0 becomes 1/0 or -1/0 with the sign of n, and 0/0 stays NaN |
| `RationalValues.ScaledFacts` | rational_number.h:84-86 | `lcm_res / d * n` scales each numerator to the common denominator lcm(d1, d2) = d1 d2 / gcd |
| `RationalValues.ScaledOrder` | rational_number.h:118-120 | the scaled numerators compare as the fractions n1/d1 and n2/d2 do |
| `RationalValues.SumIsFractionSum` | rational_number.h:82-90 | on finite operands `+` is (n1 d2 + n2 d1)/(d1 d2) in lowest terms |
| `RationalValues.DifferenceIsFractionDifference` | rational_number.h:96-104 | on finite operands `-` is (n1 d2 - n2 d1)/(d1 d2) in lowest terms |
| `RationalValues.ProductIsFractionProduct` | rational_number.h:162-166 | on finite operands `*` is (n1 n2)/(d1 d2) in lowest terms |
| `RationalValues.QuotientIsFractionQuotient` | rational_number.h:175-179 | `/` is (n1 d2)/(d1 n2) in lowest terms for n2 != 0; an infinity for a nonzero dividend over 0; NaN for 0/0 |
| `RationalValues.SelfQuotientExample` | rational_number.h:181-186 | `x /= x` as written gives 1/3 for x = 2/3, while the quotient is 1 |
| `RationalValues.FiniteOrder` | rational_number.h:114-160 | on finite values `> < == <= >= !=` are the order of the fractions, n1 d2 against n2 d1 |
| `RationalValues.GreaterIsConverseOfLess` | rational_number.h:114-154 | `a > b` iff `b < a`, and `a >= b` iff `b <= a`, infinities and NaN included |
| `RationalValues.InfinityOrder` | rational_number.h:114-160 | +inf is above and -inf below every non-NaN value other than itself; NaN compares false except with `!=` |
| `RationalValues.ComparisonAsWrittenExample` | rational_number.h:114-140 | as written, 0 > 1/2, 0 < 1/2 is false, and 1/2 == 1/2 is false |
| `Rationals.ReductionMatchesNormalize` | rational_number.h:193-198 | dividing the sign-adjusted pair by its gcd gives the reduced pair with a positive denominator |
| `Rationals.Rational.constructor` | rational_number.h:15 | the default rational is 0/1 |
| `Rationals.Rational.FromInteger` | rational_number.h:16-17 | an integer n becomes n/1 |
| `Rationals.Rational.FromPair` | rational_number.h:18-21 | a (numerator, denominator) pair is stored normalized |
| `Rationals.Rational.PositiveInf` | rational_number.h:42-44 | `positive_inf()` is +inf (1/0) |
| `Rationals.Rational.NegativeInf` | rational_number.h:46-48 | `negative_inf()` is -inf (-1/0) |
| `Rationals.Rational.NaN` | rational_number.h:50-52 | `NaN()` is 0/0 |
| `Rationals.Rational.IsNaN` | rational_number.h:54-56 | true exactly for 0/0 |
| `Rationals.Rational.IsInfinity` | rational_number.h:58-60 | true exactly for a nonzero numerator over 0 |
| `Rationals.Rational.IsNegative` | rational_number.h:62-64 | with a non-negative denominator that carries no sign flag, true exactly for a negative numerator (so never for zero) |
| `Rationals.Rational.IsNegativeInf` | rational_number.h:66-68 | true exactly for a negative numerator over 0 |
| `Rationals.Rational.IsPositiveInf` | rational_number.h:70-72 | true exactly for a positive numerator over 0 |
| `Rationals.Rational.IsZero` | rational_number.h:74-76 | true exactly for a zero numerator over a nonzero denominator |
| `Rationals.Rational.ToBool` | rational_number.h:78-80 | true exactly when the rational is not zero (NaN and infinities are true) |
| `Rationals.Rational.NotAsWritten` | rational_number.h:110-112 | as written, `!x` is the same as `bool(x)` |
| `Rationals.Rational.Not` | rational_number.h:110-112 | `!x` is the negation of `bool(x)`: true exactly for zero |
| `Rationals.Rational.MoveSign` | rational_number.cpp:16-22 | the numerator takes the sign of the fraction, the denominator becomes non-negative |
| `Rationals.Rational.Reduction` | rational_number.h:193-198 | both parts are divided by their gcd, or left alone when the gcd is 0 |
| `Rationals.Rational.SignAndReduce` | rational_number.cpp:16-23 | moving the sign and reducing gives the normalized pair |
| `Rationals.Rational.Normalize` | rational_number.cpp:5-24 | the fields become the normalized pair of the old fields: 0/d to 0/1, n/0 to +-1/0, 0/0 unchanged, otherwise sign moved and reduced |
| `Rationals.Rational.CommonDenominator` | rational_number.h:84-86 | computes lcm(d1, d2) and the two numerators scaled to it |
| `Rationals.Rational.Add` | rational_number.h:82-90 | a fresh rational holding the normalized sum, NaN when either side is NaN or infinite |
| `Rationals.Rational.Sub` | rational_number.h:96-104 | a fresh rational holding the normalized difference, NaN when either side is NaN or infinite |
| `Rationals.Rational.Assign` | rational_number.h:28-33 | both fields are copied from the other rational |
| `Rationals.Rational.AddAssign` | rational_number.h:92-94 | this becomes the sum of the old this and rhs |
| `Rationals.Rational.SubAssign` | rational_number.h:106-108 | this becomes the difference of the old this and rhs |
| `Rationals.Rational.Mul` | rational_number.h:162-166 | a fresh rational normalize(n1 n2, d1 d2) |
| `Rationals.Rational.MulAssign` | rational_number.h:168-173 | this becomes normalize(n1 n2, d1 d2) of the old values, also when rhs is this |
| `Rationals.Rational.Div` | rational_number.h:175-179 | a fresh rational normalize(n1 d2, d1 n2) |
| `Rationals.Rational.DivAssignAsWritten` | rational_number.h:181-186 | as written: the quotient for a distinct rhs, but when rhs is this the second line reads the already updated numerator |
| `Rationals.Rational.DivAssign` | rational_number.h:181-186 | this becomes normalize(n1 d2, d1 n2) of the old values, also when rhs is this |
| `Rationals.Rational.Greater` | rational_number.h:114-122 | the infinity and NaN branches of `>`, then the scaled numerators `lhs_num > rhs_num` |
| `Rationals.Rational.GreaterAsWritten` | rational_number.h:114-122 | as written, the finite branch compares `lcm_res` with `rhs_num` |
| `Rationals.Rational.Less` | rational_number.h:124-132 | the infinity and NaN branches of `<`, then `lhs_num < rhs_num` |
| `Rationals.Rational.LessAsWritten` | rational_number.h:124-132 | as written, the finite branch compares `lcm_res` with `rhs_num` |
| `Rationals.Rational.Equal` | rational_number.h:134-140 | false with NaN or an infinity, otherwise `lhs_num == rhs_num` |
| `Rationals.Rational.EqualAsWritten` | rational_number.h:134-140 | as written, the finite branch compares `lcm_res` with `rhs_num` |
| `Rationals.Rational.LessEq` | rational_number.h:142-147 | the infinity and NaN branches of `<=`, then not `>` |
| `Rationals.Rational.GreaterEq` | rational_number.h:149-154 | the infinity and NaN branches of `>=`, then not `<` |
| `Rationals.Rational.NotEqual` | rational_number.h:156-160 | true with NaN, false with an infinity, otherwise not `==` |

## Left out

- The `std::vector` base class, `reserve` and capacity are left out. Limbs are Dafny sequences, except for the
  quotient buffer of `make_div`, which is an array.
- Copy and move constructors, move assignment and the `addressof` self-assignment guards are left out. They
  have no effect under value semantics.
- `Integer` is a value (a datatype), not an object. Members that update `*this` return the new value. So the
  model does not capture aliasing between an integer and its argument, such as `x += x`. The rational layer
  is a class, and it does model aliasing (`x /= x`).
- The reverse bit iterators (`bit_rbegin`/`bit_rend`) are not modelled as objects. `make_div` walks its
  quotient bit index downwards instead.
- The `const_bit_iterator`/`bit_iterator` pair is modelled once, as `BitIter.BitIterator`. The two classes
  have the same arithmetic.
- The dozen native-integer constructors (integer.h:38-48) are collapsed into `Integers.FromNative`.
- `Integers.FromNative` requires the argument to lie in [-(2^63 - 1), 2^64 - 1]. Negating the most negative
  native value is undefined behaviour in C++.
- The `std::ratio` template constructor (rational_number.h:25-26) is left out, because it takes a foreign
  compile-time type.
- `set_zero`, `clear`, `set_one_sign_unchange`, and the postfix `++`/`--` are left out. The postfix forms are
  copies around the prefix ones.
- `IntegerText.Parse` requires a non-empty string. The source dereferences `cbegin()` of an empty string,
  which is undefined behaviour. A string that is only a sign (`"-"`, `"+"`) parses to 0, as written.
- `IntegerArith.AbsSelfDecre` also accepts a zero magnitude, which it returns as +0. Its debug assert
  rules zero out, but `++` on a negative zero reaches it (integer.h:255-262). The other `_DEBUG` asserts
  become `requires` clauses.
- Exceptions become `Result` failures (`DivisionByZero`, `InvalidFormat`). The `clear()` before the
  rethrow in the string constructor is not modelled, because a failure carries no value.
- `make_div` writes the pulled bit into an empty remainder as written (see Findings). The model's
  `IntegerDivision.MakeDiv` uses the corrected `IntegerDivision.SetLowBit`.
- In rational_number.h:116, 126, 144 and 151, `!is_negative_inf` and `!is_positive_inf` appear without a
  call, which does not compile as C++. The model uses the evidently intended calls `!is_negative_inf()` and
  `!is_positive_inf()`.
- `Rationals.Rational.LessEq`, `Rationals.Rational.GreaterEq` and `Rationals.Rational.NotEqual` call the
  corrected `>`, `<` and `==`. As written they would inherit the `lcm_res` comparisons of Findings.
- `gcd` returns 0 when either argument is 0 (integer.cpp:258), rather than the other argument's absolute
  value. The model follows the code, and `lcm` relies on it (integer.h:398-401).
- The `rational_number` arithmetic assumes both operands are normalized (denominator >= 0), which every
  constructor and operator establishes. The `Rational` methods require `Valid()` for that reason.

## Findings

| source | as written | input that shows it | evidently intended | confidence | as-written member | corrected member |
|---|---|---|---|---|---|---|
| integer.cpp:68-76 | `other[i] + borrow` is a 32-bit sum that wraps to 0 when `other[i]` is unit_max and borrow is 1; the else branch then keeps the limb and clears the borrow | [0, 0, 2] minus [1, unit_max, 1], i.e. 2^65 - (2^65 - 2^32 + 1): the result is 2^64 + unit_max instead of unit_max | compare without wrap-around and keep the borrow | high; not executed | `IntegerArith.LostBorrowExample` | `IntegerArith.SubCommonLimbs` |
| integer.cpp:79-90 | the second loop of `abs_sub_abs` never increments i | any subtraction where the minuend has more limbs than the subtrahend, e.g. 2^32 + (-1): the loop never ends | `++i` at the end of each pass | high; not executed | `IntegerArith.SecondLoopNeverExits` | `IntegerArith.PropagateBorrow` |
| integer.cpp:236 | the remainder takes the exclusive or of the operand signs | 7 % -2 gives -1, and (7 / -2) * (-2) + (7 % -2) = 5 | the remainder takes the dividend's sign, so that quotient times divisor plus remainder is the dividend | medium; not executed | `IntegerDivision.ModSignBreaksIdentity` | `IntegerDivision.Mod` |
| integer_container.cpp:110-126 | `^` does not normalize, unlike `&` | [1] ^ [1] gives [0], a non-normalized zero that `is_zero` reports as nonzero | normalize at the end | high; not executed | `LimbBitwise.XorLeavesTrailingZero` | `LimbBitwise.XorNormalized` |
| integer.cpp:150-151 | when the remainder window is 0, `im_int <<= 1` leaves it empty and `*(im_int.bit_begin()) = bit` writes past its end, so a 1 bit is lost | (2^33 + 1) % 2^32 gives remainder 0 instead of 1 | the pulled bit becomes the low bit of the remainder, also when the remainder was 0 | medium; not executed | `IntegerDivision.SetLowBitAsWritten` | `IntegerDivision.SetLowBit` |
| integer.h:255-264 | `++` sends every negative flag to `abs_self_decre`, whose debug assert and the comment at integer.h:260 take the value to be nonzero; a negative zero gets there and is normalized to +0 | `++(-0)`, where -0 is `opposite()` of 0: the result is 0 instead of 1 | treat a negative zero as zero and increment it | medium; not executed | `IntegerArith.IncrementOfNegativeZero` | `IntegerArith.IncrementIntended` |
| rational_number.h:121 | `>` compares `lcm_res` with `rhs_num` | 0 > 1/2 is true | compare `lhs_num` with `rhs_num` | high; not executed | `Rationals.Rational.GreaterAsWritten` | `Rationals.Rational.Greater` |
| rational_number.h:131 | `<` compares `lcm_res` with `rhs_num` | 0 < 1/2 is false | compare `lhs_num` with `rhs_num` | high; not executed | `Rationals.Rational.LessAsWritten` | `Rationals.Rational.Less` |
| rational_number.h:139 | `==` compares `lcm_res` with `rhs_num` | 1/2 == 1/2 is false | compare `lhs_num` with `rhs_num` | high; not executed | `Rationals.Rational.EqualAsWritten` | `Rationals.Rational.Equal` |
| rational_number.h:110-112 | `operator!` returns `!is_zero()`, the same as `operator bool` | !(1/1) is true | `is_zero()` | high; not executed | `Rationals.Rational.NotAsWritten` | `Rationals.Rational.Not` |
| rational_number.h:181-186 | `x /= x` multiplies the numerator first, then reads the updated numerator for the denominator | 2/3 /= 2/3 gives 1/3 | read both parts of rhs before writing | high; not executed | `Rationals.Rational.DivAssignAsWritten` | `Rationals.Rational.DivAssign` |

The counterexamples of the rational comparisons are proved in `RationalValues.ComparisonAsWrittenExample`,
and the one of `/=` in `RationalValues.SelfQuotientExample`. `IntegerDivision.LostBitExample` gives the
values of the `make_div` case: 2^32 has bit length 33, the first window of 2^33 + 1 is 2^32, and the true
remainder is 1. The corrected members are the ones the rest of the model uses: `IntegerArith.AbsSubAbs`,
`IntegerDivision.MakeDiv`, `Integers.BitXor`, and the rational operators.
