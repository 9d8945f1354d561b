# Arbitrary-precision integers in two's complement, modelled in Dafny

This project models the core of a C++ arbitrary-precision integer library and proves its properties.

A `big_integer` stores a non-empty sequence of 32-bit *places*, least significant first. It reads as a two's-complement number whose sign is the top bit of the last place. The sequence is kept *canonical*: no last place is a pure sign extension of the one below it.

The model covers four parts of the library:

- **Word primitives.** `addc`, the 32- and 64-bit widening multiplications, `div2_1` and `div3_2`. `div3_2` is a 96-by-64-bit division done in base 2^16 with trial digits.
- **The `big_integer` operations.**
  - Invariant maintenance: `shrink`, `correct_sign_bit`, `resize`.
  - Place-by-place operations: addition with carry, the bitwise operators, complement.
  - Short multiplication and short division by one place.
  - Long division: normalisation, trial digits, one correction, denormalisation.
  - The bit shift, comparison, and the decimal string constructor and `to_string`.
- **The `vector` container** of vector/vector.h, a growable buffer.
- **The two copy-on-write digit buffers** of bigint-optimized:
  - The header version keeps one place inline and more places in a shared, reference-counted block.
  - The revised `.cpp` version keeps up to `STATIC_BUFFER_SIZE` places inline.

Numbers are modelled by their mathematical value:

- `TwosComplement.Value` is the integer a place sequence denotes.
- `Canonical` is the representation invariant.
- Every operation on `BigIntegers.BigInteger` is a method on its `data: seq<Place>` field. Its contract gives the new value as a function of the old values.

Division is proved exact in several steps:

1. Knuth's estimate (module `LongDivision`) is at most one above the true digit.
2. The corrected `div3_2` computes the exact quotient and remainder (`DivisionStep.Div3By2Correct`).
3. The long-division loop keeps `dividend == quotient * divisor + remainder`.

The buffers are Dafny classes:

- Each block is a `SharedBlocks.SharedBlock` object holding its count, its capacity and its elements.
- Every mutating buffer method takes a ghost *bystander*: any other valid buffer. The method promises that the bystander's places do not change. This is the copy-on-write guarantee: writing through one copy never shows through another.

C++ unsigned wrap-around is written as `%`, and truncating division and remainder as `Arith.TruncDiv` / `Arith.TruncMod`. Shifts and `|` of disjoint bit ranges are written as multiplication, division and `+` by powers of two.

Three behaviours of the code are worth stating on their own:

- **Non-digits.** The string constructor does not reject non-digit characters. Each character adds its code minus `'0'`, so `"1a"` reads as 59 (`Decimal.NonDigitAccepted`). `Decimal.ParseStrict` is the strict reading, `-?[0-9]+` or an error. It agrees with the constructor on every decimal string (`Decimal.ParseStrictAgrees`).
- **`resize` can shrink.** `big_integer::resize` grows and also shrinks the digit store, and `BigInteger.Resize` models both directions.
- **Division by zero.** The code does not check for a zero divisor. Division therefore requires a non-zero divisor, which is what the code demands of its callers.

## Model

| member | source | states |
|---|---|---|
| Words.AddC | bigint/big_integer.cpp:183-192 | the sum modulo the word size, and a carry out that is set exactly when the true sum reaches the word size |
| Words.Mul64 | bigint/big_integer.cpp:197-217 | the (low, high) pair built from four 32-bit partial products is the full 128-bit product |
| Words.Mul64Parts | bigint/big_integer.cpp:209-216 | the carry and the wrapped sums of the partial products add up to the exact product |
| Words.Mul32 | bigint/big_integer.cpp:219-223 | the (low, high) pair is the full 64-bit product |
| Words.LessThreeDigits | bigint/big_integer.cpp:225-229 | true exactly when the 96-bit left pair is below the right pair |
| Words.GetThreeDigits | bigint/big_integer.cpp:231-243 | the 48-bit windows of the 96-bit remainder that `div3_2` divides, for positions -1, 0 and 1, and 0 otherwise |
| Words.SubFiveDigits | bigint/big_integer.cpp:245-269 | the corrected subtraction: the 96-bit difference (the subtrahend shifted by 16 bits at position 0) modulo 2^96 |
| Words.Div2By1 | bigint/big_integer.cpp:317-321 | the remainder of the 64-bit dividend, and its quotient whenever that fits 32 bits |
| Words.Div3By2 | bigint/big_integer.cpp:282-284 | when the top dividend place is not below the divisor's top place the result is (2^32 - 1, 0), the overflow answer |
| DivisionStep.Div3By2Correct | bigint/big_integer.cpp:271-315 | for a normalised divisor, the corrected `div3_2` returns the exact 32-bit quotient and 64-bit remainder whenever the quotient fits, and (2^32 - 1, 0) otherwise |
| DivisionStep.Div3By2AsWrittenTruncatedDigit | bigint/big_integer.cpp:301 | as written, 2^79 / (2^63 + 1) gives low trial digit 0 where the corrected step gives 65535 |
| DivisionStep.Div3By2AsWrittenSkipsCorrection | bigint/big_integer.cpp:252-256 | as written, the inverted borrow leaves garbage in the remainder and a quotient of 65538 comes out where the true quotient is 65537 |
| TwosComplement.ValueRange | bigint/big_integer.cpp:13-15 | a sequence of n places reads in [-2^(32n-1), 2^(32n-1)), and it is negative exactly when the top bit of its last place is set |
| TwosComplement.ValueDigit | bigint/big_integer.cpp:25-30 | `get_or_default` at any place index is that place of the number's infinite two's-complement expansion |
| TwosComplement.CanonicalUnique | bigint/big_integer.cpp:32-40 | two canonical sequences with the same value are equal, so structural equality is value equality |
| TwosComplement.UnsignedSizeValue | bigint/big_integer.cpp:45-48 | the value is the magnitude of the first `unsigned_size` places, less the sign weight, and that size is minimal |
| Arith.TruncDivMod | bigint/big_integer.cpp:472-482 | C++ truncating `/` and `%`: dividend = quotient * divisor + remainder, and the remainder is smaller than the divisor in magnitude and carries the dividend's sign |
| BigIntegers.BigInteger.constructor | bigint/big_integer.cpp:132-133 | the new integer is canonical and is zero |
| BigIntegers.BigInteger.FromInt | bigint/big_integer.cpp:138-139 | the new integer is canonical and has the `int`'s value |
| BigIntegers.BigInteger.FromPlace | bigint/big_integer.cpp:141-145 | the new integer is canonical and has the place read as unsigned |
| BigIntegers.BigInteger.Copy | bigint/big_integer.cpp:135-136 | the copy has the same places |
| BigIntegers.BigInteger.Assign | bigint/big_integer.cpp:173-177 | the places become the other's places |
| BigIntegers.BigInteger.Shrink | bigint/big_integer.cpp:32-40 | the result is canonical, keeps the value and is a prefix of the old places |
| BigIntegers.BigInteger.Resize | bigint/big_integer.cpp:42 | a shorter size cuts places off; a longer size sign-extends the value without changing it |
| BigIntegers.BigInteger.CorrectSignBit | bigint/big_integer.cpp:50-69 | corrected: after an optional carry place, the places are read with the expected sign, and the result is canonical |
| BigIntegers.BigInteger.CorrectSignBitAsWritten | bigint/big_integer.cpp:50-69 | as written: the same, except that all-zero places with a negative expected sign read as 0 |
| BigIntegers.BigInteger.PlaceWise | bigint/big_integer.cpp:86-126 | every place of the infinite expansion of the result is the operation applied to the two operands' places at that index |
| BigIntegers.BigInteger.Complement | bigint/big_integer.cpp:550-553 | `~a` has the value -1 - a |
| BigIntegers.BigInteger.AddAssign | bigint/big_integer.cpp:327-343 | corrected `+=`: canonical, with value old + rhs, for every pair of operands including a == rhs |
| BigIntegers.BigInteger.AddAssignAsWritten | bigint/big_integer.cpp:327-343 | as written `+=`: the sum, except that a sum of exactly -2^(32n), n the longer operand's place count, comes out as 0 |
| BigIntegers.BigInteger.AddPlaces | bigint/big_integer.cpp:329-331 | the carry loop produces the places of the sum, read by the two operands' signs |
| BigIntegers.BigInteger.Negated | bigint/big_integer.cpp:545-548 | unary `-` has the negated value |
| BigIntegers.BigInteger.RevertSign | bigint/big_integer.cpp:71-77 | the value is negated exactly when its sign differs from the requested one |
| BigIntegers.BigInteger.MakeAbsolute | bigint/big_integer.cpp:79-84 | returns whether the value was negative and leaves its absolute value |
| BigIntegers.BigInteger.SubAssign | bigint/big_integer.cpp:345-348 | corrected (Findings cpp:58-60, through `+=`): `-=` leaves old - rhs |
| BigIntegers.BigInteger.Increment | bigint/big_integer.cpp:555-558 | prefix `++` adds one |
| BigIntegers.BigInteger.Decrement | bigint/big_integer.cpp:567-570 | prefix `--` subtracts one |
| BigIntegers.BigInteger.PostIncrement | bigint/big_integer.cpp:560-565 | postfix `++` adds one and returns the old value |
| BigIntegers.BigInteger.PostDecrement | bigint/big_integer.cpp:572-577 | postfix `--` subtracts one and returns the old value |
| BigIntegers.BigInteger.ShortMultiply | bigint/big_integer.cpp:351-366 | the value times the place, canonical, for either sign of the value |
| BigIntegers.BigInteger.MultiplyPlaces | bigint/big_integer.cpp:355-363 | the carry loop: new places plus the final carry shifted past them equal the old magnitude times the place |
| BigIntegers.BigInteger.MulAssign | bigint/big_integer.cpp:368-381 | `*=` leaves the product of the two values |
| BigIntegers.BigInteger.MultiplyMagnitudes | bigint/big_integer.cpp:373-379 | the sum of shifted short products is the value times the right magnitude |
| BigIntegers.BigInteger.ShortDivide | bigint/big_integer.cpp:385-395 | on a non-negative value: the quotient by the place, and the remainder |
| BigIntegers.BigInteger.ShiftedMultiple | bigint/big_integer.cpp:451 | the trial product is the digit times the divisor shifted k places |
| BigIntegers.BigInteger.Normalize | bigint/big_integer.cpp:426-432 | the factor is at least 1, both remainder and divisor are multiplied by it, and the divisor then has its top bit set within its m places |
| BigIntegers.BigInteger.TrialStep | bigint/big_integer.cpp:443-461 | corrected (Findings cpp:301 and cpp:252-256): one estimate-and-correct step yields the exact quotient digit at position k and reduces the remainder modulo divisor * 2^(32k) |
| BigIntegers.BigInteger.QuotientPlaces | bigint/big_integer.cpp:439-462 | corrected (Findings cpp:301 and cpp:252-256): the digit loop: old remainder = quotient places * divisor + new remainder, with the new remainder below the divisor |
| BigIntegers.BigInteger.DivideNormalized | bigint/big_integer.cpp:419-465 | corrected (Findings cpp:301 and cpp:252-256): with at least two divisor places and no more than the dividend's: normalising both, dividing digit by digit and dividing the remainder by the factor again gives the exact quotient and remainder |
| BigIntegers.BigInteger.DivideMagnitudes | bigint/big_integer.cpp:405-467 | corrected (Findings cpp:301 and cpp:252-256): for non-negative operands: the exact quotient and remainder, through the single-place case, the divisor-too-long case and normalised long division |
| BigIntegers.BigInteger.LongDivide | bigint/big_integer.cpp:399-470 | corrected (Findings cpp:401, cpp:301 and cpp:252-256): the truncating quotient and the remainder with the dividend's sign, for any non-zero divisor, including the divisor being the object itself |
| BigIntegers.BigInteger.LongDivideAbsoluteFirst | bigint/big_integer.cpp:399-470 | statement order as written (Findings cpp:401), digits from the corrected `div3_2` (Findings cpp:301 and cpp:252-256): the same, except that when the divisor is the object itself and negative, the quotient comes out as -1 |
| BigIntegers.BigInteger.TrialStepAsWritten | bigint/big_integer.cpp:443-461 | as written (Findings cpp:301 and cpp:252-256): the places read as the code reads them, the digit is `LongDivision.TrialDigitAsWritten` (the `div3_2` estimate as written, decremented once as an unsigned place when the trial product is too big) and its multiple is subtracted from the remainder |
| BigIntegers.BigInteger.QuotientPlacesAsWritten | bigint/big_integer.cpp:439-462 | as written (Findings cpp:301 and cpp:252-256): the digits and the remainder are those of `LongDivision.QuotientLoopAsWritten` (`DigitLoopAsWritten` from digit n - m down), and old remainder = quotient places * divisor + new remainder still holds, without any bound on the new remainder |
| BigIntegers.BigInteger.DivAssign | bigint/big_integer.cpp:472-476 | corrected (Findings cpp:401, cpp:301 and cpp:252-256, through `long_divide`): `/=` leaves the quotient rounded toward zero |
| BigIntegers.BigInteger.ModAssign | bigint/big_integer.cpp:478-482 | corrected (Findings cpp:301 and cpp:252-256, through `long_divide`): `%=` leaves the remainder that goes with the truncating quotient |
| BigIntegers.BigInteger.AndAssign | bigint/big_integer.cpp:484-487 | every place of the infinite expansion is the AND of the operands' places |
| BigIntegers.BigInteger.OrAssign | bigint/big_integer.cpp:489-492 | every place of the infinite expansion is the OR of the operands' places |
| BigIntegers.BigInteger.XorAssign | bigint/big_integer.cpp:494-497 | every place of the infinite expansion is the XOR of the operands' places |
| BigIntegers.BigInteger.BitShift | bigint/big_integer.cpp:509-538 | the value times 2^rhs, rounded toward minus infinity for right shifts, so a right shift past every place gives 0 or -1 |
| BigIntegers.BigInteger.Compare | bigint/big_integer.cpp:638-652 | -1, 0 or 1 as the first value is below, equal to or above the second |
| BigIntegers.BigInteger.Equal | bigint/big_integer.cpp:654-657 | the places are equal exactly when the values are |
| BigIntegers.BigInteger.NotEqual | bigint/big_integer.cpp:659-662 | the places differ exactly when the values do |
| BigIntegers.BigInteger.Less | bigint/big_integer.cpp:664-667 | true exactly when a < b |
| BigIntegers.BigInteger.Greater | bigint/big_integer.cpp:669-672 | true exactly when a > b |
| BigIntegers.BigInteger.LessEq | bigint/big_integer.cpp:674-677 | true exactly when a <= b |
| BigIntegers.BigInteger.GreaterEq | bigint/big_integer.cpp:679-682 | true exactly when a >= b |
| BigIntegers.BigInteger.Sign | bigint/big_integer.cpp:629-636 | -1, 0 or 1 by the sign of the value |
| PlaceOps.ComplementedValue | bigint/big_integer.cpp:550-553 | complementing every place gives -1 - value, place by place in the infinite expansion |
| Shifts.ShiftPastEndAsWritten | bigint/big_integer.cpp:521-522 | as written, `5 >> 64` asks for a vector of 2^64 - 1 places, while the intended size is 1 |
| Shifts.ShiftSizeAgrees | bigint/big_integer.cpp:521 | without wrap-around the size as written is the intended one |
| LongDivision.Normalization | bigint/big_integer.cpp:428-432 | the factor `2^32 / (top + 1)` (or 1) sets the divisor's top bit while keeping it within its m places |
| LongDivision.TrialDigitEstimate | bigint/big_integer.cpp:443-449 | with a normalised divisor the estimate from three remainder places and two divisor places is the true digit or one more |
| LongDivision.NormalizedDivision | bigint/big_integer.cpp:463-464 | dividing the scaled problem gives the original quotient, and the scaled remainder divides exactly back |
| TwosComplement.WindowRead | bigint/big_integer.cpp:443-446 | reading place i of a canonical number, or 0 past its last place, gives digit i of the value within its shortest two's-complement size and 0 beyond it |
| TwosComplement.CanonicalSizeOf | bigint/big_integer.cpp:32-40 | a canonical sequence has exactly as many places as the shortest two's-complement form of its value |
| DivisionStep.Div3By2AsWrittenSmallWindow | bigint/big_integer.cpp:271-315 | as written, the window (0, 0x8000, 0) over (1, 2^31) gives the digit 0, as it should |
| LongDivision.DigitLoopStep | bigint/big_integer.cpp:440-461 | one pass of the loop as written sets digit k to the as-written trial digit and subtracts its multiple |
| LongDivision.DigitLoopIdentity | bigint/big_integer.cpp:440-461 | whatever digits `div3_2` as written yields, the loop keeps dividend = quotient * divisor + remainder |
| LongDivision.DigitLoopTruncated | bigint/big_integer.cpp:301 | as written, 2^79 / (2^63 + 1) (normalisation factor 1) gives quotient digits 0 and 0 and leaves 2^79 as the remainder, where the true quotient is 65535 |
| Decimal.Parse | bigint/big_integer.cpp:147-167 | an error exactly on "" and "-" |
| Decimal.ParseDigits | bigint/big_integer.cpp:147-167 | on `-?[0-9]+` the constructor reads the number the digits write, with the sign of the '-' |
| Decimal.NonDigitAccepted | bigint/big_integer.cpp:160-164 | "1a" is not decimal text, yet it reads as 59 |
| Decimal.ParseStrict | bigint/big_integer.cpp:147-167 | the strict reading: a value exactly on `-?[0-9]+`, an error otherwise |
| Decimal.ParseStrictAgrees | bigint/big_integer.cpp:147-167 | on decimal text the strict reading and the constructor agree |
| Decimal.FormatParse | bigint/big_integer.cpp:684-701 | reading `to_string`'s output gives the value back |
| Decimal.FormatParseStrict | bigint/big_integer.cpp:684-701 | the strict reading of `to_string`'s output gives the value back |
| Decimal.ParseFormat | bigint/big_integer.cpp:684-701 | on the shortest decimal forms `to_string` undoes the reading, so each value has exactly one output |
| Decimal.DigitsOfValue | bigint/big_integer.cpp:691-696 | the digits `to_string` writes read back as the number, with no leading zero |
| BigIntegerText.FromString | bigint/big_integer.cpp:147-167 | the string constructor fails exactly where `Decimal.Parse` does and otherwise yields a canonical integer of that value |
| BigIntegerText.ToString | bigint/big_integer.cpp:684-701 | `to_string` returns `Decimal.Format` of the value |
| BigIntegerText.ReversedDigits | bigint/big_integer.cpp:689-696 | the division loop collects the digits of the absolute value in reverse, or "0" |
| Vectors.GrownCapacityBounds | vector/vector.h:133-139 | growth never shrinks, always fits what was asked, and grows by at least half when it grows |
| Vectors.InsertedAt | vector/vector.h:304-314 | insertion puts the element at the position, keeps the prefix and moves the rest up by one |
| Vectors.EraseInsert | vector/vector.h:316-320 | erasing one position undoes inserting there |
| Vectors.ErasedAt | vector/vector.h:322-332 | erasing a range keeps the prefix and moves the suffix down by the range's length |
| Vectors.Vector.constructor | vector/vector.h:15 | an empty vector with no capacity |
| Vectors.Vector.NewBuffer | vector/vector.h:107-131 | a fresh buffer of max(requested, size) slots holding the same elements |
| Vectors.Vector.EnsureCapacity | vector/vector.h:133-139 | the elements are kept and the capacity becomes `GrownCapacity` |
| Vectors.Vector.Copy | vector/vector.h:141-147 | a fresh buffer of exactly the other's size with the same elements |
| Vectors.Vector.Assign | vector/vector.h:149-154 | the elements become the other's; self-assignment keeps the buffer |
| Vectors.Vector.Get | vector/vector.h:169-173 | the i-th element |
| Vectors.Vector.Set | vector/vector.h:163-167 | a write through `operator[]` replaces exactly the i-th element |
| Vectors.Vector.Size | vector/vector.h:187-191 | the number of elements |
| Vectors.Vector.Empty | vector/vector.h:240-244 | true exactly when there are no elements |
| Vectors.Vector.Front | vector/vector.h:199-203 | the first element |
| Vectors.Vector.Back | vector/vector.h:211-215 | the last element |
| Vectors.Vector.PushBack | vector/vector.h:217-232 | the element is appended and the capacity grows as `ensure_capacity(size + 1)` says |
| Vectors.Vector.PopBack | vector/vector.h:234-238 | the last element is removed and the buffer kept |
| Vectors.Vector.Reserve | vector/vector.h:252-256 | the elements are kept and the capacity becomes `GrownCapacity` |
| Vectors.Vector.ShrinkToFit | vector/vector.h:258-263 | the elements are kept and the capacity becomes the size |
| Vectors.Vector.Clear | vector/vector.h:265-270 | no elements, same buffer |
| Vectors.Vector.Swap | vector/vector.h:272-278 | buffers, sizes, capacities and hence elements are exchanged |
| Vectors.Vector.Insert | vector/vector.h:304-314 | the element is placed at the position and the rest moved up; the position is returned, and the capacity is that of the internal `push_back`: grown when full, unchanged otherwise |
| Vectors.Vector.Erase | vector/vector.h:322-332 | the range is removed and the rest moved down, in the same buffer; the start is returned |
| Vectors.Vector.EraseAt | vector/vector.h:316-320 | the one element at the position is removed |
| SharedBlocks.ResizedGrowShrink | bigint-optimized/optimized_buffer.cpp:130-152 | growing then cutting back restores a buffer's places; growing twice is growing once |
| SharedBlocks.SharedBlock.AllocateBuffer | bigint-optimized/optimized_buffer.h:18-28 | a fresh block of capacity + reserved slots, count 1, one holder |
| SharedBlocks.SharedBlock.AddRef | bigint-optimized/optimized_buffer.h:30-34 | one more holder, counted, elements untouched |
| SharedBlocks.SharedBlock.Release | bigint-optimized/optimized_buffer.h:36-42 | nothing for null; otherwise one holder fewer, counted, elements untouched |
| SharedBlocks.SharedBlock.IsUnique | bigint-optimized/optimized_buffer.cpp:142 | true exactly when the count is one, and then the block has a single holder |
| SharedBlocks.SharedBlock.Allocate | bigint-optimized/optimized_buffer.cpp:9 | a fresh block of count 1 whose first slots are the old places resized with the default |
| SharedBlocks.SharedBlock.Unshare | bigint-optimized/optimized_buffer.cpp:22 | a block of the caller's own holding the places resized; the old block loses the caller and keeps its elements |
| SharedBlocks.SharedBlock.EnsureUnique | bigint-optimized/optimized_buffer.cpp:28 | the block itself when its count is one, else a fresh copy of the places; the old block keeps its elements |
| OptimizedBufferHeader.OptimizedBuffer.constructor | bigint-optimized/optimized_buffer.h:101-109 | size copies of the default, one inline or in a fresh block of its own |
| OptimizedBufferHeader.OptimizedBuffer.FromSeq | bigint-optimized/optimized_buffer.h:111-118 | the vector's places, one inline or in a fresh block of its own |
| OptimizedBufferHeader.OptimizedBuffer.Copy | bigint-optimized/optimized_buffer.h:120-126 | the same places; a shared block gains the copy as a counted holder and no other buffer changes |
| OptimizedBufferHeader.OptimizedBuffer.Allocate | bigint-optimized/optimized_buffer.h:58-63 | a fresh block of count 1 and capacity newSize + reserved, filled with the default |
| OptimizedBufferHeader.OptimizedBuffer.AllocateFrom | bigint-optimized/optimized_buffer.h:65-72 | a fresh block of count 1 holding the old places resized with the default |
| OptimizedBufferHeader.OptimizedBuffer.UnshareResize | bigint-optimized/optimized_buffer.h:74-98 | the places resized to the new size, in a block of this buffer's own or inline, and every other buffer unchanged |
| OptimizedBufferHeader.OptimizedBuffer.Assign | bigint-optimized/optimized_buffer.h:128-134 | the places become the other's and every other buffer is unchanged |
| OptimizedBufferHeader.OptimizedBuffer.Swap | bigint-optimized/optimized_buffer.h:135-161 | the two buffers' places are exchanged and every third buffer is unchanged |
| OptimizedBufferHeader.OptimizedBuffer.Exchange | bigint-optimized/optimized_buffer.h:140-160 | in all four inline/shared cases the storages and sizes are exchanged |
| OptimizedBufferHeader.OptimizedBuffer.Destroy | bigint-optimized/optimized_buffer.h:260-264 | a shared block loses this holder, counted, and every other buffer is unchanged |
| OptimizedBufferHeader.OptimizedBuffer.Size | bigint-optimized/optimized_buffer.h:163-166 | the number of places, never zero |
| OptimizedBufferHeader.OptimizedBuffer.Resize | bigint-optimized/optimized_buffer.h:167-180 | growing appends copies of the default, in place only when this buffer is the block's sole holder |
| OptimizedBufferHeader.OptimizedBuffer.SoleHolder | bigint-optimized/optimized_buffer.h:173 | a block whose count is one is held by no other valid buffer, so writing it in place is safe |
| OptimizedBufferHeader.OptimizedBuffer.Back | bigint-optimized/optimized_buffer.h:182-185 | the last place |
| OptimizedBufferHeader.OptimizedBuffer.MakeWritable | bigint-optimized/optimized_buffer.h:220-225 | the places are kept in storage this buffer alone holds |
| OptimizedBufferHeader.OptimizedBuffer.SetBack | bigint-optimized/optimized_buffer.h:186-193 | a write through the mutable `back()` changes this buffer's last place only |
| OptimizedBufferHeader.OptimizedBuffer.Set | bigint-optimized/optimized_buffer.h:220-225 | a write through the mutable `data()` changes this buffer's i-th place only |
| OptimizedBufferHeader.OptimizedBuffer.PushBack | bigint-optimized/optimized_buffer.h:195-198 | the place is appended and every other buffer is unchanged |
| OptimizedBufferHeader.OptimizedBuffer.PopBack | bigint-optimized/optimized_buffer.h:199-206 | the last place is removed and every other buffer is unchanged |
| OptimizedBufferHeader.OptimizedBuffer.Equal | bigint-optimized/optimized_buffer.h:244-254 | true exactly when the places are equal |
| OptimizedBufferHeader.OptimizedBuffer.NotEqual | bigint-optimized/optimized_buffer.h:255-258 | true exactly when the places differ |
| OptimizedBufferRevised.OptimizedBuffer.Allocate | bigint-optimized/optimized_buffer.cpp:6-11 | a fresh block of count 1 holding the old places resized, and the new size |
| OptimizedBufferRevised.OptimizedBuffer.UnshareAll | bigint-optimized/optimized_buffer.cpp:13-16 | the places kept in a block this buffer alone holds, every other buffer unchanged |
| OptimizedBufferRevised.OptimizedBuffer.Unshare | bigint-optimized/optimized_buffer.cpp:18-24 | the places resized in a block this buffer alone holds, every other buffer unchanged |
| OptimizedBufferRevised.OptimizedBuffer.EnsureUnique | bigint-optimized/optimized_buffer.cpp:26-29 | the places kept, a block made this buffer's own, every other buffer unchanged |
| OptimizedBufferRevised.OptimizedBuffer.StaticInflate | bigint-optimized/optimized_buffer.cpp:31-38 | inline places moved into a fresh block of their own, resized to the new size |
| OptimizedBufferRevised.OptimizedBuffer.constructor | bigint-optimized/optimized_buffer.cpp:40-52 | size copies of the default, inline exactly when they fit the inline capacity |
| OptimizedBufferRevised.OptimizedBuffer.FromSeq | bigint-optimized/optimized_buffer.cpp:54-66 | the vector's places, inline exactly when they fit |
| OptimizedBufferRevised.OptimizedBuffer.Copy | bigint-optimized/optimized_buffer.cpp:68-78 | the same places; a block gains the copy as a counted holder and no other buffer changes |
| OptimizedBufferRevised.OptimizedBuffer.Assign | bigint-optimized/optimized_buffer.cpp:80-88 | the places become the other's and every other buffer is unchanged |
| OptimizedBufferRevised.OptimizedBuffer.SwapStaticDynamic | bigint-optimized/optimized_buffer.cpp:90-96 | the inline buffer takes the block and the other takes the inline places |
| OptimizedBufferRevised.OptimizedBuffer.Swap | bigint-optimized/optimized_buffer.cpp:98-128 | the two buffers' places are exchanged and every third buffer is unchanged |
| OptimizedBufferRevised.OptimizedBuffer.Exchange | bigint-optimized/optimized_buffer.cpp:105-127 | in all four inline/dynamic cases the storages and sizes are exchanged |
| OptimizedBufferRevised.OptimizedBuffer.Destroy | bigint-optimized/optimized_buffer.cpp:238-244 | a block loses this holder, counted, and every other buffer is unchanged |
| OptimizedBufferRevised.OptimizedBuffer.Resize | bigint-optimized/optimized_buffer.cpp:130-152 | the places resized with the default in all four branches, writing in place only into storage this buffer alone holds |
| OptimizedBufferRevised.OptimizedBuffer.Back | bigint-optimized/optimized_buffer.cpp:154-157 | the last place |
| OptimizedBufferRevised.OptimizedBuffer.SetBack | bigint-optimized/optimized_buffer.cpp:159-167 | a write through the mutable `back()` changes this buffer's last place only |
| OptimizedBufferRevised.OptimizedBuffer.Set | bigint-optimized/optimized_buffer.cpp:194-198 | a write through the mutable `data()` changes this buffer's i-th place only |
| OptimizedBufferRevised.OptimizedBuffer.PushBack | bigint-optimized/optimized_buffer.cpp:169-172 | the place is appended and every other buffer is unchanged |
| OptimizedBufferRevised.OptimizedBuffer.PopBack | bigint-optimized/optimized_buffer.cpp:174-177 | the last place is removed and every other buffer is unchanged |
| OptimizedBufferRevised.OptimizedBuffer.Places | bigint-optimized/optimized_buffer.cpp:189-192 | the `size()` places the const `data()` points at |
| OptimizedBufferRevised.OptimizedBuffer.Equal | bigint-optimized/optimized_buffer.cpp:220-231 | true exactly when the places are equal |
| OptimizedBufferRevised.OptimizedBuffer.NotEqual | bigint-optimized/optimized_buffer.cpp:233-236 | true exactly when the places differ |

## Left out

- **Exceptions.** Allocation failure and exceptions are not modelled. This covers the catch-and-rethrow of `correct_sign_bit` and of `copy_construct_n`, and the strong and weak guarantees that rest on them. Every operation here succeeds.
- **Thrown errors.** The string constructor's error is `None`, not an exception.
- **Stream output.** `operator<<` to a stream is output only, so it is not modelled.
- **Operator wrappers.** These call a modelled member and are not separate members:
  - unary `+`;
  - the binary operators `+ - * / % & | ^ << >>`, which call the compound operators;
  - `<<=` and `>>=`, which call `bit_shift` (`BitShift`) with `rhs` and `-rhs`.
- **`iterate` with function objects.** The callbacks are replaced by one loop per concrete operation: `AddPlaces`, `PlaceWise`, `MultiplyPlaces`, `ShortDivide`, and `Complement`.
- BigIntegers.BigInteger.BitShift: `>>=` with `INT_MIN` negates `rhs` and overflows `int`. The model takes the shift count as already negated.
- BigIntegers.BigInteger.MulAssign: requires fewer than 2^26 right places. The source computes `i * PLACE_BITS` in `int`, which overflows beyond that.
- BigIntegers.BigInteger.MulAssign: reads `rhs`'s sign before taking the absolute value of `*this`. The source's two operands of `^` are unsequenced. For `a *= a` with negative `a`, evaluating `make_absolute()` first would give `-(a*a)`.
- BigIntegers.BigInteger.LongDivide: requires fewer than 2^26 places. The source computes `k * PLACE_BITS` in `int`. The same bound applies to `DivAssign`, `ModAssign` and `LongDivideAbsoluteFirst`.
- BigIntegers.BigInteger.QuotientPlacesAsWritten: subtracts with the corrected `-=`. The `-=` as written differs only on the sum in Findings cpp:58-60.
- **`long_divide` as written around its loop.** Only the digit loop is modelled as written. Normalisation, and `short_divide` of a remainder that the loop as written may leave negative, are modelled only in the corrected division.
- Decimal.CharValue: reads `char` as signed, the common ABI choice. An unsigned `char` would give different values for bytes of 0x80 and above.
- Decimal.IsByteString: a `std::string` holds bytes. The model requires every character below 0x100 and has no encoding.
- Vectors.GrownCapacity: `capacity * 3 / 2` is not wrapped to `size_t`. Capacities of 2^63 and more are out of reach.
- **Vector object lifetimes.** Construction and destruction of elements (`destroy_at`, `destroy_n`, `copy_construct_at`, `copy_construct_n`) are not modelled. Elements are values. The destructor only frees memory.
- **Vector pointer accessors.** `data()`, `begin()`, `end()` and `capacity()` expose pointers or a field; the model reads `data`, `Contents()` and `capacity` directly. `insert` and `erase` take indices instead of iterators.
- **Raw buffer pointers.** The buffers' pointer conversions, `begin()` and `end()` are read through `Contents()` / `Places()`.
- SharedBlocks.SharedBlock.Release: freeing the block at count zero is not modelled. The block simply stops being used.
- **Reference-count accuracy.** Only one direction is proved: every holder is counted (`|holders| <= refCount`). That is the direction copy-on-write relies on.
- SharedBlocks.SharedBlock.Allocate: the revised `shared_buffer_t` and its `allocate`, `unshare`, `ensure_unique` and `is_unique` are defined in a header that is not part of this model. `Allocate`, `Unshare`, `EnsureUnique` and `IsUnique` are given the behaviour their call sites rely on, with simple bodies.
- **`STATIC_BUFFER_SIZE`.** It is defined in that header too. It is a constant of each revised buffer, and the proofs hold for every value.
- **The inline/dynamic flag.** The revised buffer's flag is modelled as the tag of `Storage`, which moves together with the size. Its layout in the unseen header is not modelled.
- **Unused inline slots.** Inline slots past the size are never read; they are zero or copied whole here.
- **Default arguments in the unseen header.** `unshare()` and `pop_back` pass the default fill value, taken as 0. It is never observed because neither call grows the buffer.
- OptimizedBufferRevised.OptimizedBuffer.PopBack: requires a non-empty buffer. On an empty one, `size() - 1` wraps around, and the source then asks for a buffer of 2^64 - 1 places.

## Findings

| source | as written | input that shows it | evidently intended | confidence | as-written member | corrected member |
|---|---|---|---|---|---|---|
| bigint/big_integer.cpp:58-60 | `correct_sign_bit` takes all-zero places with a negative expected sign for zero, so a negative sum whose places are all zero comes out as 0 | `a = b = -2147483648; a += b` gives 0 | -4294967296 | high (traced through the contract), not executed | BigIntegers.BigInteger.AddAssignAsWritten | BigIntegers.BigInteger.AddAssign |
| bigint/big_integer.cpp:521-522 | the new size `data.size() + places + (bits > 0)` wraps around as `size_t` when a right shift moves every place out, so the vector asked for has 2^64 - 1 places | `big_integer(5) >> 64` | 0 | high, not executed | Shifts.ShiftPastEndAsWritten | BigIntegers.BigInteger.BitShift |
| bigint/big_integer.cpp:301 | the second trial digit is cast to `uint16_t`, so an estimate of 65536 becomes 0 | `div3_2(0, 0, 0x8000, 1, 0x80000000)` gives low digit 0 (`DivisionStep.Div3By2AsWrittenTruncatedDigit`); in the whole division 2^79 / (2^63 + 1) both quotient digits come out 0, so `/` gives 0 and `%` gives 2^79 | 65535, with remainder 2^79 - 65535 * (2^63 + 1) | high (concrete lemma), not executed | LongDivision.DigitLoopTruncated | DivisionStep.Div3By2Correct |
| bigint/big_integer.cpp:252-256 | `sub_5_digits` subtracts the carry of `addc(l, ~r + 1)` as the borrow, but that carry is set exactly when no borrow is needed; the remainder keeps garbage in its top bits and the second correction is skipped | `div3_2(0xFFFF0000, 0xFFFF, 0x8001, 0xFFFFFFFF, 0x80000000)` gives 65538 | 65537 | high (concrete lemma), not executed | DivisionStep.Div3By2AsWrittenSkipsCorrection | Words.SubFiveDigits |
| bigint/big_integer.cpp:401 | `make_absolute()` runs before `rhs.sign_bit()` is read, so when `rhs` is the object itself its sign is already positive | `a = -5; a /= a` gives -1 | 1 | high (the two declarators are sequenced), not executed | BigIntegers.BigInteger.LongDivideAbsoluteFirst | BigIntegers.BigInteger.LongDivide |
