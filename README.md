# BigInteger and Vector in Dafny

This project models two independent C++ components and proves what they
compute.

**`BigInteger`** (big_integer.h, big_integer.cpp) is an arbitrary-precision
signed integer. Its state is a vector `digits_` of base-10000 limbs, least
significant first, plus a flag `is_negative_`.
- The abstraction function is `Value` in module `BigIntegers`: `Val` of the
  limbs, negated when the flag is set.
- Canonical form means no top zero limb, and an empty store is not negative.

The model has four layers:
- `Limbs` and `Decimal` hold the arithmetic of limb sequences and decimal
  numerals.
- `BigIntegers` gives each operation a specification function and proves
  its meaning against `Value`.
- `BigIntegerOps` holds the loops of big_integer.cpp as methods. Each is
  proved equal to its specification function. They cover `AddDigits`,
  `ParseString`, `RemoveLeadingZeros`, `Normalize`, the carry and borrow
  loops of `+=` and `-=`, `MultiplyHelper`, the binary search of
  `DivideHelper`, `DigitCount`, `operator<` and `operator<<`.
- `BigIntegerClass` is the class whose fields the compound assignments and
  `++`/`--` update in place. It also holds the comparisons and the free
  binary operators.

Module `AsWrittenDispatch` models the sign dispatch between `+=` and `-=`
exactly as written, including the case that never returns.

**`Vector<T>`** (vector.h) is a growable array. Module `Vectors` models it
as a class:
- The buffer is an `array<T>` whose length is `capacity_`; the empty array
  stands for the null buffer. The first `size_` slots hold the elements.
- Every operation keeps `size_ <= capacity_`.
- Every operation states its new elements and capacity.
- `AllocateMoreBuffer` follows the growth policy of `NewCapacity`.
- Lexicographic `<` is specified by `LexLess`, proved irreflexive,
  transitive and trichotomous for a strict total element order.

The exceptions `BigIntegerOverflow`, `BigIntegerDivisionByZero` and
`ArrayOutOfRange` are results: `Result.Failure(Overflow)`,
`Result.Failure(DivisionByZero)` and `Lookup.OutOfRange`.

Every operation that can produce a zero ends in `Normalize`
(big_integer.cpp:98, 125, 151, 181 and 240-241), which clears the sign of a
zero. `ParseString` ends in `RemoveLeadingZeros` instead (big_integer.cpp:53).
The model follows the code in `ParseString`/`ParseSpec` and records the
difference as the first finding below.

## Model

| member | source | states |
|---|---|---|
| Limbs.BaseIsPow10 | big_integer.h:34-35 | kBase is 10^kBaseDigits, and k limbs span exactly 4k decimal digits |
| Limbs.ToLimbs | big_integer.cpp:22-27 | the limbs built from n are canonical and denote n |
| Limbs.CanonicalUnique | big_integer.h:37-38 | two canonical limb sequences with the same value are identical, so the representation is unique |
| Limbs.Trim | big_integer.cpp:63-67 | removes only top zero limbs and leaves none: the result is a prefix, and every dropped limb is 0 |
| Limbs.ValTrim | big_integer.cpp:63-67 | removing top zero limbs keeps the value and yields canonical limbs |
| Decimal.DecimalLengthBound | big_integer.cpp:183 | a number has at most k decimal digits exactly when it is below 10^k |
| Decimal.DecimalTextOfNumeral | big_integer.cpp:367-380 | a numeral without leading zeros is the decimal text of its own value |
| BigIntegers.CanonicalByValue | big_integer.cpp:56-61 | two canonical numbers with the same value are equal |
| BigIntegers.Normalized | big_integer.cpp:56-61 | Normalize yields a canonical number of the same value whose limbs are the trimmed limbs |
| BigIntegers.NormalizedCanonical | big_integer.cpp:56-61 | Normalize leaves a canonical number unchanged |
| BigIntegers.FromInt | big_integer.cpp:6-12 | BigInteger(int) is canonical and denotes the integer |
| BigIntegers.Negated | big_integer.cpp:95-100 | unary minus is canonical and denotes the negated value, so -0 is 0 |
| BigIntegers.IsNonZeroMeansValueNonZero | big_integer.cpp:244-246 | operator bool holds exactly when the value is nonzero, for negative zero too |
| BigIntegers.ScanLessMeaning | big_integer.cpp:346-351 | the top-down limb scan of operator< says whether one magnitude is below the other, flipped for negatives |
| BigIntegers.LessSameSign | big_integer.cpp:340-353 | with equal signs, operator< compares magnitudes, reversed for negatives |
| BigIntegers.LessAbsolute | big_integer.cpp:85-89 | comparing absolute values compares magnitudes |
| BigIntegers.LessIsValueOrder | big_integer.cpp:340-353 | on canonical numbers, operator< holds exactly when the value is smaller |
| BigIntegers.ComparisonsMeanValueOrder | big_integer.cpp:332-365 | ==, !=, <=, > and >= built from operator< mean value equality and order; == is equality of representation |
| BigIntegers.LessIrreflexive | big_integer.cpp:340-353 | no number is less than itself |
| BigIntegers.LessTrichotomy | big_integer.cpp:340-353 | for canonical numbers exactly one of a < b, a == b, b < a holds |
| BigIntegers.LessTransitive | big_integer.cpp:340-353 | operator< is transitive on canonical numbers |
| BigIntegers.SameSignDifferenceValue | big_integer.cpp:129-146 | the equal-sign branch of -= denotes the exact difference |
| BigIntegers.SumIsExact | big_integer.cpp:102-127 | += yields a canonical number denoting the exact sum |
| BigIntegers.DifferenceIsExact | big_integer.cpp:129-153 | -= yields a canonical number denoting the exact difference |
| BigIntegers.SumDifferenceInverse | big_integer.cpp:102-153 | (a + b) - b == a and (a - b) + b == a |
| BigIntegers.NegationLaws | big_integer.cpp:95-127 | a + (-a) is canonical zero and -(-a) == a |
| BigIntegers.IncrementDecrement | big_integer.cpp:248-268 | ++ adds exactly one and -- subtracts exactly one |
| BigIntegers.Product | big_integer.cpp:162-180 | the normalized product has magnitude equal to the product of magnitudes and is negative only when the signs differ |
| BigIntegers.MultiplyResultMeaning | big_integer.cpp:155-186 | the product denotes x * y; multiplication overflows exactly when the magnitude product reaches 10^30009, that is, has more than 30009 digits |
| BigIntegers.TooManyDigitsMeaning | big_integer.cpp:183 | a number is past the ceiling of more than 30009 decimal digits exactly when it is at least 10^30009 |
| BigIntegers.TooManyDigitsMonotone | big_integer.cpp:183 | a number at least as large as one past the ceiling is past it too |
| BigIntegers.Quotient | big_integer.cpp:206-242 | the quotient is canonical, with magnitude abs(x) / abs(y), and is negative only when the signs differ |
| BigIntegers.Remainder | big_integer.cpp:206-242 | the remainder is canonical, with magnitude abs(x) % abs(y), and is negative only when x is |
| BigIntegers.TruncatingDivision | big_integer.cpp:188-242 | x == q * y + r, abs(r) < abs(y), r is zero or has the sign of x, and q is the quotient rounded toward zero |
| BigIntegers.MagnitudeTextIsNumeral | big_integer.cpp:367-380 | the top limb unpadded followed by the other limbs padded to four digits is the decimal numeral of the magnitude |
| BigIntegers.ParseSpec | big_integer.cpp:29-54 | ParseString denotes the digits' decimal value, negated after a leading '-', with well-formed limbs |
| BigIntegers.Parse | big_integer.cpp:29-61 | the corrected parser yields a canonical number of the same value |
| BigIntegers.TextRoundTrip | big_integer.cpp:29-54 | parsing the printed text of any well-formed number gives that number back |
| BigIntegers.CanonicalTextRoundTrip | big_integer.cpp:367-380 | printing the parse of a canonical text reproduces the text, "-0" included |
| BigIntegers.CorrectedTextRoundTrip | big_integer.cpp:29-61 | with the corrected parser the text round trip holds except that "-0" prints as "0" |
| BigIntegers.NegativeZeroFromText | big_integer.cpp:53 | "-0" parses to negative zero, which denotes 0 yet is less than and unequal to BigInteger(0) and prints as "-0" |
| BigIntegers.ParseNegativeZero | big_integer.cpp:56-61 | the corrected parser turns "-0" into BigInteger(0), which prints as "0" |
| AsWrittenDispatch.Step | big_integer.cpp:102-153 | one hand-over between += and -= keeps both operands well formed |
| AsWrittenDispatch.Run | big_integer.cpp:121-123 | any number of hand-overs keeps the call well formed |
| AsWrittenDispatch.DispatchCycle | big_integer.cpp:121-123 | with negative x, x += 0 hands over to x -= 0 and back, unchanged |
| AsWrittenDispatch.NeverReturns | big_integer.cpp:147-149 | with negative x, neither x += 0 nor x -= 0 produces a value after any number of steps |
| AsWrittenDispatch.AgreesWhenFinishing | big_integer.cpp:102-153 | on every other pair of operands the dispatch as written finishes within two steps with the corrected Sum and Difference |
| BigIntegerOps.AddDigits | big_integer.cpp:22-27 | the push_back loop of AddDigits builds exactly the canonical limbs of the value |
| BigIntegerOps.FromInt64 | big_integer.cpp:6-12 | BigInteger(int64_t) without INT64_MIN builds the canonical number of the value |
| BigIntegerOps.RemoveLeadingZeros | big_integer.cpp:63-67 | the pop_back loop removes exactly the top zero limbs |
| BigIntegerOps.Normalize | big_integer.cpp:56-61 | Normalize leaves the normalized number: trimmed limbs, and a zero is not negative |
| BigIntegerOps.ParseString | big_integer.cpp:29-54 | the group loop reads 4-digit groups from the right into exactly the canonical limbs of the decimal value, with the '-' flag kept |
| BigIntegerOps.ReadGroups | big_integer.cpp:41-51 | the group loop builds limbs below kBase that denote the decimal value of the digits after the sign |
| BigIntegerOps.ReadGroup | big_integer.cpp:42-50 | one group of at most four digits accumulates to its decimal value, always below kBase, so CheckOverflow never fires |
| BigIntegerOps.Format | big_integer.cpp:367-380 | operator<< writes the sign, the top limb and the zero-padded lower limbs, which is the decimal text of the value |
| BigIntegerOps.WriteLowerLimbs | big_integer.cpp:375-377 | the loop appends every limb below the top one, most significant first, each padded to four digits |
| BigIntegerOps.CountDigits | big_integer.cpp:270-284 | DigitCount is the length of the decimal text of the magnitude, 1 for zero |
| BigIntegerOps.LessThan | big_integer.cpp:340-353 | the operator< scan computes Less |
| BigIntegerOps.AddSameSign | big_integer.cpp:102-120 | padding and the carry loop add the magnitudes exactly, every limb stays below kBase, and the result keeps the sign of x |
| BigIntegerOps.AddLimbAt | big_integer.cpp:114-119 | one carry step changes only limb i, leaves it below kBase with a carry of 0 or 1, keeps value plus carry, and carries nothing when the sum is below kBase |
| BigIntegerOps.CarryLoop | big_integer.cpp:108-120 | over limbs padded past the other operand the carry loop adds that operand exactly, without growing the limbs |
| BigIntegerOps.SubtractSameSign | big_integer.cpp:132-143 | when abs(x) >= abs(y) the borrow loop subtracts the magnitudes exactly and keeps the sign of x |
| BigIntegerOps.SubtractLimbAt | big_integer.cpp:137-142 | one borrow step changes only limb i, leaves it below kBase with a borrow of 0 or 1, and keeps value minus borrow |
| BigIntegerOps.BorrowLoop | big_integer.cpp:132-143 | when the minuend is at least the subtrahend the borrow loop subtracts exactly, without growing the limbs |
| BigIntegerOps.SameSignSubtract | big_integer.cpp:129-146 | the equal-sign branch of -= subtracts the smaller magnitude from the larger and sets the sign accordingly |
| BigIntegerOps.Add | big_integer.cpp:102-127 | += with a terminating sign dispatch computes Sum |
| BigIntegerOps.Subtract | big_integer.cpp:129-153 | -= with a terminating sign dispatch computes Difference |
| BigIntegerOps.AddRow | big_integer.cpp:167-179 | one row of MultiplyHelper adds a[i] * b * kBase^i into the result; the carry stays below kBase and lands inside the result |
| BigIntegerOps.MultiplyLimbAt | big_integer.cpp:169-177 | one inner step changes only limb i + j, leaves it below kBase with a carry below kBase, and keeps value plus carry |
| BigIntegerOps.Multiply | big_integer.cpp:155-186 | MultiplyHelper gives the normalized exact product, or Overflow exactly when it has more than 30009 digits |
| BigIntegerOps.QuotientLimb | big_integer.cpp:217-231 | the binary search over [0, kBase] finds d with abs(divisor) * d <= remainder < abs(divisor) * (d + 1); with capped trial products it throws Overflow, and does whenever abs(divisor) * 5000 has more than 30009 digits |
| BigIntegerOps.TrialProduct | big_integer.cpp:223 | the trial abs(divisor) * mid is exact, and with the ceiling of operator* it fails with Overflow exactly when it has more than 30009 digits |
| BigIntegerOps.InsertLimb | big_integer.cpp:214-215 | inserting a limb at the bottom of the remainder and normalizing gives limb + kBase * remainder |
| BigIntegerOps.SubtractTrial | big_integer.cpp:234 | subtracting the chosen trial product leaves a remainder below abs(divisor) |
| BigIntegerOps.BringDown | big_integer.cpp:213-235 | one long-division step: the new limb is below kBase, and digit * abs(divisor) + new remainder == limb + kBase * old remainder, with the new remainder below abs(divisor) |
| BigIntegerOps.LongDivision | big_integer.cpp:211-235 | the loop fills one quotient limb per dividend limb so that dividend == quotient * abs(divisor) + remainder with the remainder below abs(divisor) |
| BigIntegerOps.DivideHelper | big_integer.cpp:206-242 | long division yields Quotient and Remainder; capped trial products throw Overflow for every nonempty dividend when abs(divisor) * 5000 has more than 30009 digits, and only when abs(divisor) * kBase does |
| BigIntegerOps.Divide | big_integer.cpp:188-195 | operator/= gives DivisionByZero exactly for an empty divisor, before any work, and otherwise the truncated quotient |
| BigIntegerOps.Modulo | big_integer.cpp:197-204 | operator%= gives DivisionByZero exactly for an empty divisor, and otherwise the remainder with the dividend's sign |
| BigIntegerOps.DivisionTrialOverflow | big_integer.cpp:223 | when abs(x) < abs(y) and abs(y) * 5000 has more than 30009 digits, the first trial product overflows although the quotient is 0 and the remainder is x |
| BigIntegerOps.DivisionTrialOverflowWitness | big_integer.cpp:223 | 1 / 10^30008 meets those conditions |
| BigIntegerClass.BigInteger.constructor | big_integer.cpp:3-4 | BigInteger() is zero |
| BigIntegerClass.BigInteger.OfInt | big_integer.cpp:6-12 | BigInteger(int) and BigInteger(int64_t) are canonical and denote the value |
| BigIntegerClass.BigInteger.OfText | big_integer.cpp:14-20 | construction from text yields the corrected parse |
| BigIntegerClass.BigInteger.Copy | big_integer.h:62-63 | the copy has the same value |
| BigIntegerClass.BigInteger.Assign | big_integer.h:65-66 | assignment takes the other number's value |
| BigIntegerClass.BigInteger.IsNegative | big_integer.cpp:81-83 | IsNegative holds exactly when the value is below zero |
| BigIntegerClass.BigInteger.ToBool | big_integer.cpp:244-246 | operator bool holds exactly when the value is nonzero |
| BigIntegerClass.BigInteger.Absolute | big_integer.cpp:85-89 | Absolute is a new number denoting the absolute value |
| BigIntegerClass.BigInteger.UnaryPlus | big_integer.cpp:91-93 | unary + is a copy |
| BigIntegerClass.BigInteger.UnaryMinus | big_integer.cpp:95-100 | unary - denotes the negated value |
| BigIntegerClass.BigInteger.AddAssign | big_integer.cpp:102-127 | x += y makes x the exact sum, even when y is x |
| BigIntegerClass.BigInteger.SubAssign | big_integer.cpp:129-153 | x -= y makes x the exact difference |
| BigIntegerClass.BigInteger.MulAssign | big_integer.cpp:155-160 | x *= y makes x the product, or throws Overflow and leaves x unchanged |
| BigIntegerClass.BigInteger.DivAssign | big_integer.cpp:188-195 | x /= y makes x the truncated quotient, or throws DivisionByZero and leaves x unchanged; its trial products are exact, so it never throws Overflow |
| BigIntegerClass.BigInteger.ModAssign | big_integer.cpp:197-204 | x %= y makes x the remainder, or throws DivisionByZero and leaves x unchanged; its trial products are exact, so it never throws Overflow |
| BigIntegerClass.BigInteger.Increment | big_integer.cpp:248-251 | prefix ++ adds exactly one |
| BigIntegerClass.BigInteger.Decrement | big_integer.cpp:259-262 | prefix -- subtracts exactly one |
| BigIntegerClass.BigInteger.PostIncrement | big_integer.cpp:253-257 | postfix ++ returns a copy of the old value and adds one |
| BigIntegerClass.BigInteger.PostDecrement | big_integer.cpp:264-268 | postfix -- returns a copy of the old value and subtracts one |
| BigIntegerClass.BigInteger.DigitCount | big_integer.cpp:270-284 | DigitCount is the number of decimal digits, at least 1; it is at most 30009 exactly when the magnitude is below 10^30009 |
| BigIntegerClass.BigInteger.ToString | big_integer.cpp:367-380 | the printed text parses back to the same number |
| BigIntegerClass.Less | big_integer.cpp:340-353 | a < b exactly when the value of a is smaller |
| BigIntegerClass.Equal | big_integer.cpp:332-334 | a == b exactly when the values are equal, which is exactly when the representations are |
| BigIntegerClass.NotEqual | big_integer.cpp:336-338 | a != b exactly when the values differ |
| BigIntegerClass.LessEq | big_integer.cpp:355-357 | a <= b exactly when the value of a is at most that of b |
| BigIntegerClass.Greater | big_integer.cpp:359-361 | a > b exactly when the value of a is larger |
| BigIntegerClass.GreaterEq | big_integer.cpp:363-365 | a >= b exactly when the value of a is at least that of b |
| BigIntegerClass.BinaryPlus | big_integer.cpp:389-391 | a + b is a new number denoting the sum; neither operand changes |
| BigIntegerClass.BinaryMinus | big_integer.cpp:393-395 | a - b is a new number denoting the difference; neither operand changes |
| BigIntegerClass.BinaryTimes | big_integer.cpp:397-399 | a * b denotes the product, or fails with Overflow exactly when it exceeds 30009 digits |
| BigIntegerClass.BinaryDivide | big_integer.cpp:401-403 | a / b is the truncated quotient, or DivisionByZero exactly for a zero divisor; its trial products are exact, so it never fails with Overflow |
| BigIntegerClass.BinaryModulo | big_integer.cpp:405-406 | a % b is the remainder, or DivisionByZero exactly for a zero divisor; its trial products are exact, so it never fails with Overflow |
| Vectors.NewCapacity | vector.h:654-661 | AllocateMoreBuffer picks the larger of double the capacity (1 when it is 0) and the required minimum |
| Vectors.MoveElements | vector.h:366-377 | the move loop copies the first size elements into the new buffer and leaves its other slots alone |
| Vectors.Fill | vector.h:304-318 | the construction loop puts value into exactly the slots from size_ to the new size |
| Vectors.Vector.constructor | vector.h:34 | the default vector is empty with capacity 0 and owns a new buffer |
| Vectors.Vector.OfSize | vector.h:36-80 | Vector(n) and Vector(n, v) hold n copies of the value with size = capacity = n, in a new buffer |
| Vectors.Vector.OfSeq | vector.h:82-113 | the range and initializer-list constructors hold the range with size = capacity = its length, in a new buffer |
| Vectors.Vector.Copy | vector.h:115-136 | the copy holds the same elements in a new buffer of the source's capacity, or no buffer when the source is empty |
| Vectors.Vector.Take | vector.h:138-146 | the move constructor takes the buffer, size and capacity, and leaves the source empty with capacity 0 and a new empty buffer |
| Vectors.Vector.CopyAssign | vector.h:148-154 | copy assignment takes the other's elements and the copy's capacity in a new buffer, and is a no-op on itself |
| Vectors.Vector.MoveAssign | vector.h:156-168 | move assignment takes the other's buffer and leaves the other empty with capacity 0 and a new empty buffer, and is a no-op on itself |
| Vectors.Vector.Size | vector.h:175-177 | Size is the number of elements |
| Vectors.Vector.Capacity | vector.h:178-180 | Capacity returns the capacity, which is at least Size |
| Vectors.Vector.Empty | vector.h:181-183 | Empty holds exactly when there are no elements |
| Vectors.Vector.Get | vector.h:185-190 | operator[] on an index in range is that element |
| Vectors.Vector.At | vector.h:192-203 | At is the element, or ArrayOutOfRange exactly when the index is not below the size |
| Vectors.Vector.Front | vector.h:205-210 | Front of a nonempty vector is the first element |
| Vectors.Vector.Back | vector.h:211-216 | Back of a nonempty vector is the last element |
| Vectors.Vector.Swap | vector.h:225-229 | Swap exchanges buffers, sizes and capacities |
| Vectors.Vector.Deallocate | vector.h:646-652 | Deallocate drops the buffer, leaving capacity 0; a nonzero capacity gives way to a new empty buffer |
| Vectors.Vector.AllocateMoreBuffer | vector.h:654-661 | the new buffer has NewCapacity slots |
| Vectors.Vector.Resize | vector.h:231-357 | Resize keeps the first min(old, n) elements and fills new slots with the value; within the capacity the buffer and capacity are unchanged, and beyond it a new buffer follows the growth policy |
| Vectors.Vector.Reserve | vector.h:359-386 | Reserve keeps the elements; it is a no-op up to the capacity, and otherwise a new buffer follows the growth policy and reaches n |
| Vectors.Vector.ShrinkToFit | vector.h:388-418 | ShrinkToFit keeps the elements and makes the capacity equal to the size, in a new buffer unless it already was |
| Vectors.Vector.Clear | vector.h:420-425 | Clear removes all elements and keeps the buffer and capacity |
| Vectors.Vector.PushBack | vector.h:427-558 | PushBack and EmplaceBack append the value after the old elements; the buffer and capacity are unchanged if there was room, otherwise a new buffer follows the growth policy for size + 1 |
| Vectors.Vector.PopBack | vector.h:560-565 | PopBack drops exactly the last element, is a no-op on an empty vector, and keeps the capacity |
| Vectors.Equal | vector.h:605-615 | == holds exactly when the element sequences are equal, which means equal sizes and equal elements |
| Vectors.NotEqual | vector.h:616-618 | != is the negation of == |
| Vectors.Less | vector.h:619-630 | the operator< loop computes lexicographic order |
| Vectors.LessEq | vector.h:631-633 | <= is "not b < a" |
| Vectors.Greater | vector.h:634-636 | > is "b < a" |
| Vectors.GreaterEq | vector.h:637-639 | >= is "not a < b" |
| Vectors.LexLessIrreflexive | vector.h:619-630 | no vector is less than itself when no element is |
| Vectors.ProperPrefixIsLess | vector.h:629 | a proper prefix is less than the longer vector and not the other way round |
| Vectors.LexLessFirstDifference | vector.h:619-630 | for a strict total element order, a < b is decided at the first differing position, or by length when one is a prefix of the other |
| Vectors.LexLessTrichotomy | vector.h:619-639 | for a strict total element order, exactly one of a < b, a == b, b < a holds |
| Vectors.LexLessTransitive | vector.h:619-630 | for a strict total element order, operator< is transitive |

## Left out

- Stream input `operator>>` (big_integer.cpp:382-387) is left out because it is I/O. `operator<<` is modelled as a function to a string. Fill state left on the stream by `setw`/`setfill` is not modelled.
- Parser inputs other than an optional sign followed by decimal digits are excluded by a precondition. On other characters the code depends on what `CheckOverflow` happens to allow. On the empty string, `str[0]` reads the terminating NUL and the result is zero.
- `CheckOverflow` in the carry and borrow loops and in `ParseString` is modelled as an assertion that each limb stays in [0, kBase). The assertion is proved, so the exception is never thrown there.
- BigIntegerOps.FromInt64: `INT64_MIN` is excluded, because `std::abs` overflows on it.
- The `int` carry and the `int64_t` product of `MultiplyHelper` are unbounded integers in the model. AddRow proves the carry below kBase and the product below kBase², so neither overflows.
- The unused private helpers `HandleCarry`, `HandleBorrow`, `EnsureCapacity` and `CompareDigits` (big_integer.cpp:286-330) are left out.
- Operations with a terminating sign dispatch: BigIntegerOps.Add and BigIntegerOps.Subtract treat a zero second operand as same-signed. The class uses them. The code as written is kept in AsWrittenDispatch.
- BigIntegerClass.BigInteger.OfText uses the corrected parse that normalizes. The code as written is kept in BigIntegerOps.ParseString and BigIntegers.ParseSpec.
- BigIntegerOps.Divide and BigIntegerOps.Modulo use exact trial products. The ceiling as written is kept in BigIntegerOps.DivideHelper with trialCeiling set.
- BigIntegerClass.BigInteger.DivAssign, BigIntegerClass.BigInteger.ModAssign, BigIntegerClass.BinaryDivide and BigIntegerClass.BinaryModulo use exact trial products through BigIntegerOps.Divide and BigIntegerOps.Modulo. So they never throw Overflow, where the code as written throws it for a nonempty dividend whenever abs(divisor) * 5000 has more than 30009 digits (big_integer.cpp:223 and 183-185).
- Vector: raw allocation, placement new, `destroy_at` and `move_if_noexcept` are not modelled. Moving or copying an element is assignment of its value. A throwing element constructor and the rollback blocks that handle it are not modelled.
- Vector: `T()` cannot be written for a generic Dafny type. So `Vector(n)` and `Resize(n)` are `OfSize(n, value)` and `Resize(n, value)` with the value standing for `T()`.
- Vector: `EmplaceBack(args...)` is `PushBack` of the element built from the arguments. The `const T&` and `T&&` overloads of `PushBack` are one method.
- Vector: the iterators `begin` to `crend` (vector.h:567-603) and `Data()` are raw pointers with no behaviour to state, so they are left out.
- Vector: unchecked `operator[]`, `Front` and `Back` get preconditions (index in range, nonempty) instead of undefined behaviour. Writing through the references they return is not modelled.
- Vector comparisons take `T`'s `operator<` as a function parameter. The order lemmas assume it is a strict total order.
- Vectors.Equal and Vectors.NotEqual compare elements with Dafny's equality on `T`, not with a user-defined `operator==` of `T` (vector.h:610). An `operator==` that is not an equality is not modelled.
- The destructor releases memory only, so it is left out.

## Findings

| source | as written | input that shows it | evidently intended | confidence | as-written member | corrected member |
|---|---|---|---|---|---|---|
| big_integer.cpp:53 | ParseString ends with RemoveLeadingZeros, which keeps the '-' flag of a zero | "-0" gives negative zero: less than BigInteger(0), unequal to it, and printed as "-0" | parsing ends with Normalize, so "-0" is the one zero | high (not executed) | BigIntegers.NegativeZeroFromText | BigIntegers.Parse |
| big_integer.cpp:121-123 | the mixed-sign branches of += and -= hand over to each other with the operand negated, and -0 normalizes to non-negative 0 | x = -1, y = 0: `x += y` and `x -= y` recurse without end | x += 0 and x -= 0 leave x unchanged | high (not executed) | AsWrittenDispatch.NeverReturns | BigIntegerOps.Add |
| big_integer.cpp:223 | each binary-search trial `abs_divisor * BigInteger(mid)` goes through operator* and its 30009-digit ceiling | 1 / 10^30008: the first trial, 10^30008 * 5000, has 30012 digits and throws BigIntegerOverflow | division compares exact trial products, so 1 / 10^30008 is 0 with remainder 1 | medium (not executed) | BigIntegerOps.DivisionTrialOverflow | BigIntegerOps.Divide |

Corrected members, and where their intended properties are proved:
- BigIntegers.Parse is proved by ParseNegativeZero and CorrectedTextRoundTrip.
- BigIntegerOps.Add computes Sum, and BigIntegerOps.Subtract computes Difference. Their exactness is SumIsExact and DifferenceIsExact.
- BigIntegerOps.Divide and BigIntegerOps.Modulo call DivideHelper without the ceiling. DivideHelper then always succeeds with Quotient and Remainder, whose meaning is TruncatingDivision.
