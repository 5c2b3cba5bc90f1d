# Verified models of the formatter, the checksum and the configuration code

Dafny models of the parts of this repository whose correctness rests on an argument rather than on
inspection, with proofs of what they are for. `dafny verify dfyconfig.toml` checks everything.

- **Exact decimal output.** `Bigint.dfy` is the formatter's `bigint` as a class over its bigits and
  exponent; every operation is proved to be arithmetic on the number it stands for (`Limbs.dfy`,
  `BigintFacts.dfy`, `Convolution.dfy`, `Powers.dfy` hold the mathematics). `Dragon.dfy` and
  `DragonFixed.dfy` are the two digit loops of `format_dragon`, `FormatDragon.dfy` its setup and the whole,
  `DecimalInterval.dfy` and `DecimalMeaning.dfy` say what the digits mean for f * 2^e. `DragonPromise.dfy`
  says for which inputs the digits of the shortest mode are the promised ones and for which they are not,
  `DragonBoundary.dfy` has inputs of the second kind, `DragonTies.dfy` says when the division goes wrong, and
  `DragonHidden.dfy` which cases no supported type can meet.
  `DragonEstimate.dfy` proves the exponent estimate, `DragonLeading.dfy` is about the first digit, and
  `FormatFloat.dfy` puts estimate, digits and the removal of trailing zeros together.
- **CRC-32.** `CrcRegister.dfy` is the bit-at-a-time register and its linearity; `CrcWords.dfy` and
  `Crc32.dfy` are the braided `crc32_z`; `CrcAlgebra.dfy`, `CrcSquares.dfy` and `CrcCombine.dfy` are
  multiplication modulo the polynomial and `crc32_combine`; `CrcCheck.dfy` has the check value and the residue.
- **Text.** `Utf8.dfy`, `Codepoints.dfy` and `Transcode.dfy`: decoding, cutting into code points, and the
  two converters. `FormatSpecs.dfy` and `FormatString.dfy`: specifiers and format strings, at run time and
  compiled; `FormatGrammar.dfy` and `FormatFields.dfy`: the documented grammar of both, which the parser accepts
  exactly and reads as documented. `Decimals.dfy`: numbers as digits. `OutputBuffer.dfy`: the flushing and
  truncating buffers. `TrailingZeros.dfy`: divisibility by modular inverses. `IsoWeek.dfy`: ISO week dates.
- **Structures and protocols.** `RingList.dfy`: the intrusive ring list on the heap. `RwLock.dfy` and
  `RwProgress.dfy`: the read/write lock under every interleaving, safety and progress. `ConfigPath.dfy`,
  `ConfigIndex.dfy`, `ConfigWalk.dfy` and `ConfigParser.dfy`: the YAML/JSON path index, against walking the
  document. `IniFile.dfy`: the INI reader and writer, and `IniGrammar.dfy` the lines it accepts.

Machine integers are natural numbers with every wrap-around written out, or bit vectors where the code works
on bits. State that the code updates in place is a class, a loop is a loop, and recursion at compile time is a
function. Statements `hide F;` inside proofs only keep definitions away from the solver.

## What the proofs found

Where the code does less than one would expect of it, the model follows the code and the exact
condition is proved.

- `compare` answers by the exponents when two equal numbers have different ones (fmt/format.h:2646-2652).
  The shortest mode's test against the lower end of the rounding interval inherits this. What it prints is the
  promised decimal, the nearest of the shortest in the interval that is closed for even f, exactly if none of
  three things happens (`DragonPromise.PromiseKeptIff`, a condition on f, e and the flags):
  - f is even, the numerator's exponent is below lower's, and the lower end is a decimal that beats every other
    one (`EndMissed`). So it is for the double 8344650268554688 * 2^32, whose four-digit decimal is passed over
    (`DragonBoundary.BoundaryMissed`).
  - f is odd, the exponent is above lower's, and the excluded lower end beats every decimal in the interval
    (`EndTaken`); it is printed then, as for a binary128 number in `DragonBoundary.BoundaryTaken`. Up to 64 bits the
    exponent is never above lower's (`DragonHidden.NeverTaken`).
  - The exponent is above lower's, and f * 2^e is a multiple of 10^exp10 at the first place (`HiddenExact`). The
    remainder 0 counts as larger than lower there, and the digits are one too many: 10^32 with a significand of 76
    bits is written as 10 (`DragonBoundary.BoundaryHidden`). With the estimate of `format_float` this happens to no
    significand of up to 75 bits or of 113, so to no supported type (`DragonHidden.NeverHidden`); for other widths
    `format_float` takes the zero off again (`FormatFloat.TrimmedPromise`).
- For the same reason `divmod_assign` misses a divisor equal to the dividend when the dividend's exponent is
  larger. The shortest mode prints the right digit all the same. The fixed mode puts a ten behind the missed
  tie, and only then (`FormatDragon.FixedDecimal`): 5^31 * 2^31 comes out as a zero and the character after 9
  (`DragonTies.TiePrinted`). This needs a significand between 65 and 74 bits (`TieFreeUpTo64Bits`,
  `TieFreeFrom75Bits`), which no supported type normalises to.
- The fixup compares the upper end of the interval with 10^exp10 also when a number of digits is given. The first
  digit is then a zero exactly if f * 2^e is more than half a unit of the last digit below 10^exp10
  (`DragonLeading.FixedLeads`). For the double below 10^23 and 17 digits it is (`DragonLeading.LeadingZero`). A
  single digit is never a zero (`OneDigitLeads`), and the shortest form never begins with one (`ShortestLeads`).
- The comment at fmt/format.h:2513 says 32^exp_; the code means 2^(32 * exp_).
- The 64-bit `remove_trailing_zeros` keeps only 32 bits of the quotient by 10^8: right exactly for
  n < 2^32 * 10^8 or n not divisible by 10^8 (`TrailingZeros.RemoveTrailingZeros64`). Its `s |= 1` counts the last
  zero only from an even start.
- ISO week dates are right from year 0 on; before that `%` on negative numbers never finds a year of 53
  weeks, and the answer is right exactly outside week 53 (`IsoWeek.IsoWeekDate`).
- The format string compiler accepts more than the run-time parser: `}` in front of another character, which
  it then drops, and automatic ids nested in a manual field (`FormatString.StrictRuns`, with `StrayBrace` and
  `NestedAutomatic` for the two).
- The path index keeps the first position that it visits under a path, and positions may share one. Looking a path
  up gives what `at` finds exactly if the node is entered under its path and no other is visited earlier
  (`ConfigWalk.LookupIsWalk`). With keys free of dots and brackets that is always so in YAML, while JSON takes the
  last of equal keys where `at` takes the first (`PlainLookup`, `RepeatedKey`); a dotted key hides the position
  its parts lead to (`DottedKey`), and an empty one below the root shares the root's path (`RootFound`).

## Model

| member | source | states |
|---|---|---|
| BigintModel.Bigint.SubtractBigits | fmt/format.h:2527-2531 | one column minus another and a borrow, with the new borrow exactly accounting for the wrap-around |
| BigintModel.Bigint.RemoveLeadingZeros | fmt/format.h:2533-2537 | drops top zero bigits only: the number stays, and the top bigit is nonzero unless it is the only one |
| BigintModel.Bigint.SubtractAligned | fmt/format.h:2540-2550 | the number becomes the difference, although only one extra borrow is propagated |
| BigintModel.Bigint.Multiply | fmt/format.h:2552-2561 | the number becomes the product with a 32-bit factor |
| BigintModel.Bigint.MultiplyWide | fmt/format.h:2563-2582 | the number becomes the product with a 64- or 128-bit factor; no intermediate value loses bits in its machine type |
| BigintModel.Bigint.Assign | fmt/format.h:2586-2594 | stands for n, in canonical form, with exponent 0 |
| BigintModel.Bigint.AssignFrom | fmt/format.h:2603-2609 | a copy of the other number |
| BigintModel.Bigint.ShiftLeft | fmt/format.h:2620-2633 | the number becomes itself times 2^shift; whole words go into the exponent |
| BigintModel.Compare | fmt/format.h:2641-2654 | the sign of the difference, and for equal numbers the order of their exponents |
| BigintModel.AddCompare | fmt/format.h:2657-2674 | the sign of lhs1 + lhs2 - rhs despite the early exits and the one-bit borrow window, except for zeros with too large an exponent: one on the left counts as larger than rhs, one on the right as larger than the sum |
| BigintModel.Bigint.AssignPow10 | fmt/format.h:2677-2692 | 10^n by repeated squaring and a shift |
| BigintModel.Bigint.Square | fmt/format.h:2694-2720 | the number becomes its square; the 128-bit column sum never overflows |
| BigintModel.Bigint.Align | fmt/format.h:2724-2733 | same number, exponent lowered to the other's |
| BigintModel.Bigint.DivmodAssign | fmt/format.h:2737-2748 | old = q * divisor + r with r < divisor, except for the missed tie, where nothing changes and 0 is returned |
| DecimalInterval.BothTestsFail | fmt/format.h:2830-2850 | if neither end test fires, no multiple of the current unit lies in the rounding interval |
| DecimalInterval.LowAndHigh | fmt/format.h:2835-2843 | if both fire, the rounding picks the nearer multiple, the even one on a tie |
| Dragon.NextDigit | fmt/format.h:2830-2830 | the exact quotient and remainder, 0..9 below tenfold and up to 10 at it; a missed tie gives 0 and leaves the dividend |
| Dragon.EndTests | fmt/format.h:2831-2833 | the two comparisons are the membership tests of the rounding interval, up to the equal-value case of `compare` |
| Dragon.RoundsUp | fmt/format.h:2835-2843 | the decision to increment the last digit: below the interval, or past the half, or on the half with an odd digit |
| Dragon.OneRound | fmt/format.h:2829-2851 | a round either ends with the nearest element of the interval at its place or shows that the place has none, and lower grows towards the denominator |
| Dragon.GenerateShortest | fmt/format.h:2825-2852 | terminates; all digits 0..9, also if the division misses a tie; the result is the nearest element of the interval at its place, and no earlier place has an element that the tests can see |
| DragonFixed.PropagateCarry | fmt/format.h:2873-2888 | the carry leaves the number unchanged, all nines become a one that either appends a zero or bumps the exponent |
| DragonFixed.FixedDigits | fmt/format.h:2864-2870 | the truncated digits and the remainder, exactly; a digit is ten right behind a missed tie and nowhere else |
| DragonFixed.NoDigits | fmt/format.h:2855-2863 | with no digit asked for, the one character is the value rounded to that place |
| DragonFixed.GenerateFixed | fmt/format.h:2853-2893 | the digits denote the value rounded half to even at the last place, for every digit count including none; they are 0..9 exactly if no tie is missed before the last place, and behind a missed one stands a ten |
| DragonFixed.RoundedHalfEvenUnique | fmt/format.h:2871-2892 | that rounding has only one answer |
| FormatDragon.Setup | fmt/format.h:2773-2811 | the three cases leave the operands of f * 2^e and its half-gaps over 10^exp10 |
| FormatDragon.SetupMeaning | fmt/format.h:2773-2824 | in every case the operands stand for f * 2^e in units of 10^exp10 |
| FormatDragon.Fixup | fmt/format.h:2813-2821 | the estimate is lowered exactly when even the upper end stays below it |
| FormatDragon.TieMeaning | fmt/format.h:2737-2739 | the operands tie exactly where f * 2^e is a power of ten |
| FormatDragon.HiddenMeaning | fmt/format.h:2831-2831 | a remainder of 0 is taken for larger than lower at the first place at most, and there exactly if the fixup has not scaled lower up |
| FormatDragon.FormatDragon | fmt/format.h:2761-2893 | shortest mode: the nearest decimal in the rounding interval of f * 2^e with the lower end as `compare` takes it, and no multiple of a higher power of ten lies in it, but for the exact value at a hidden first place; otherwise f * 2^e rounded half to even, in the fixed form at the place of the last decimal asked for and else after as many digits as asked for, and digits exactly if no tie is missed; an error exactly when the precision overflows |
| DecimalMeaning.ShortestMeaning | fmt/format.h:2824-2852 | what the loop establishes, said of all decimals and not just of the generated places |
| DecimalMeaning.EndsAreMidpoints | fmt/format.h:2766-2811 | the ends of the rounding interval lie halfway to the neighbouring numbers, the nearer one if the predecessor is closer |
| DragonPromise.OtherEnd | fmt/format.h:2831-2831 | with the lower end wrongly in or out, the decimal printed stays the winner exactly if the end is not taken or not missed |
| DragonPromise.HiddenBreaks | fmt/format.h:2830-2833 | an exact value that goes unseen is never what is printed |
| DragonPromise.HiddenHarmless | fmt/format.h:2830-2833 | a hidden place without an exact value changes nothing |
| DragonPromise.HiddenPrinted | fmt/format.h:2830-2850 | with a significand of five or more, it is written all the same, one place down and with a zero behind |
| DragonPromise.PromiseKeptIff | fmt/format.h:2761-2852 | for every output the shortest mode may give: it is the nearest of the shortest decimals in the interval closed by the evenness of f, exactly under a condition on the input |
| DragonBoundary.AlignedKept | fmt/format.h:2785-2811 | values below one, and all whose operands share lower's exponent, meet the condition |
| DragonBoundary.BoundaryMissed | fmt/format.h:2829-2833 | a double, with its estimated exponent, whose shortest decimal, the included lower end, is not printed |
| DragonBoundary.BoundaryTaken | fmt/format.h:2829-2833 | a binary128 number, with its estimated exponent, for which the excluded lower end is printed |
| DragonBoundary.BoundaryHidden | fmt/format.h:2829-2833 | 10^32 with a significand of 76 bits and its estimated exponent is written as 10 at place 31 |
| DragonHidden.ShortNotHidden | fmt/format.h:2813-2833 | no exact value goes unseen for significands of up to 75 bits, whatever the exponent estimate |
| DragonHidden.NeverHidden | fmt/format.h:2813-2833 | nor for 113 bits with the caller's estimate: no supported type meets the case |
| DragonHidden.NeverTaken | fmt/format.h:2829-2833 | up to 64 bits only a missed lower end can break the promise |
| DragonTies.TieFreeUpTo64Bits | fmt/format.h:2737-2739 | no significand of up to 64 bits meets the missed tie at any place |
| DragonTies.TieFreeFrom75Bits | fmt/format.h:2737-2739 | nor does one of 75 bits and more |
| DragonTies.TiePrinted | fmt/format.h:2864-2870 | 5^31 * 2^31, with its estimated exponent and two digits or more, is printed with a ten as its second digit |
| DragonEstimate.Crossed | fmt/format.h:3013-3021 | from one inequality between a power of two and a power of ten to all exponents that are no closer to it |
| DragonEstimate.EstimateIs | fmt/format.h:3021-3023 | truncation and the increment round the expression up, whatever its rounding errors up to 1e-11 |
| DragonEstimate.EstimateAbove | fmt/format.h:3017-3023 | 2^(n + 1) <= 10^(exp + 1), for binary magnitudes n from -16500 to 16500 |
| DragonEstimate.EstimateBelow | fmt/format.h:3017-3023 | 10^(exp - 1) <= 2^n, in the same range, where log10(2) and its decimal constant cannot be told apart |
| DragonEstimate.EstimateRight | fmt/format.h:3017-3023 | 10^(exp - 1) <= f * 2^e, and the upper end of the interval is below 10^(exp + 1), as the comment has it, for every supported type |
| DragonEstimate.EstimatedOnce | fmt/format.h:3021-3023 | off the near-integers the estimate is one number, whatever the rounding errors |
| DragonLeading.FixupReaches | fmt/format.h:2813-2815 | after the fixup the upper end reaches 10^exp10 |
| DragonLeading.ShortestLeads | fmt/format.h:2825-2852 | the shortest form never begins with a zero |
| DragonLeading.FixedLeads | fmt/format.h:2864-2893 | with a given number of digits the first is a zero exactly if the value falls short of 10^exp10 by more than half a unit of the last digit, or by half a unit if it is the only one |
| DragonLeading.ShortIsBelow | fmt/format.h:2813-2815 | which needs a value below 10^exp10 |
| DragonLeading.OneDigitLeads | fmt/format.h:2864-2893 | a single digit is never a zero after the fixup |
| DragonLeading.LeadingZero | fmt/format.h:2813-2870 | the double below 10^23 with 17 digits begins with a zero |
| FormatFloat.CountBits | fmt/format.h:1063-1076 | the length of a number in bits |
| FormatFloat.TrimmedValue | fmt/format.h:3280-3287 | the number is the same without its trailing zeros |
| FormatFloat.WinnerUntrimmed | fmt/format.h:3280-3287 | the winner among the decimals of the interval has no trailing zero |
| FormatFloat.TrimmedPromise | fmt/format.h:3269-3288 | what is left is the promised decimal exactly if the lower end is neither missed nor taken |
| FormatFloat.FormatFloat | fmt/format.h:3012-3024 | the path for types without a fast algorithm, from the significand to the trimmed digits: never an error; in the fixed form rounded at 10^-precision, otherwise precision digits, both up to 767; in the shortest form no leading zero, and the promised decimal under the exact condition |
| CrcRegister.TableStepIsFeed | crypto/src/crc32.cpp:548-551 | the table step is eight bit steps with the byte fed in |
| CrcRegister.RegXor | crypto/src/crc32.cpp:320-380 | a change of the starting register runs through a message as through zeros |
| Crc32.CrcWord | crypto/src/crc32.cpp:223-229 | the register of the word's bytes from 0 |
| Crc32.BraidWord | crypto/src/crc32.cpp:344-379 | the word's register, moved on to the same word of the next block |
| Crc32.BraidBlock | crypto/src/crc32.cpp:324-380 | every lane absorbs its word and moves on |
| Crc32.NextLanesOwe | crypto/src/crc32.cpp:320-380 | what the lanes owe after a block is the block and the old debt, moved one block on |
| Crc32.CombinedPays | crypto/src/crc32.cpp:382-401 | running the last block with the lanes pays the debt exactly |
| Crc32.Braided | crypto/src/crc32.cpp:302-402 | whole blocks: the register of the bytes, for any number of lanes and either word size |
| Crc32.ToBoundary | crypto/src/crc32.cpp:260-264 | the bytes before the first aligned word, fewer than a word |
| Crc32.ByteLoops | crypto/src/crc32.cpp:536-551 | the register of the remaining bytes |
| Crc32.Crc32Z | crypto/src/crc32.cpp:243-555 | the byte-at-a-time checksum for every message, start value, alignment, number of lanes and word size; the guard leaves at least one block; 0 for a null buffer |
| CrcCheck.CheckValue | crypto/src/crc32.cpp:243-555 | the checksum of the digits 1 to 9 is 0xCBF43926 |
| CrcCheck.Residue | crypto/src/crc32.cpp:243-555 | any message followed by its checksum, lowest byte first, has the checksum 0x2144DF1C |
| CrcAlgebra.MulComm | crypto/src/crc32.cpp:63-79 | multiplication modulo p commutes |
| CrcAlgebra.PowerTimes | crypto/src/crc32.cpp:63-79 | multiplying by x^n is appending n zero bits |
| CrcAlgebra.PowerNonzero | crypto/src/crc32.cpp:85-97 | no power of x is zero |
| CrcSquares.SquareIs | crypto/src/crc32.cpp:85-97 | squaring acts on each bit alone |
| CrcSquares.SquaresReturn | crypto/src/crc32.cpp:92-92 | x^(2^32) is x |
| CrcCombine.Multmodp | crypto/src/crc32.cpp:63-79 | the product modulo p; terminates for every nonzero first factor |
| CrcCombine.TableWraps | crypto/src/crc32.cpp:92-92 | the index k & 31 finds x^(2^k) for every k |
| CrcCombine.X2nmodp | crypto/src/crc32.cpp:85-97 | x^(n * 2^k) for every n and k, never zero |
| CrcCombine.ChecksumAppend | crypto/src/crc32.cpp:566-569 | the checksum of a concatenation from those of its parts |
| CrcCombine.ChecksumStreams | crypto/src/crc32.cpp:243-249 | a checksum may be continued piece by piece |
| CrcCombine.CombineGen | crypto/src/crc32.cpp:578-581 | the factor x^(8 n), never zero |
| CrcCombine.CombineOp | crypto/src/crc32.cpp:590-593 | with the factor for the second message's length, the checksum of the concatenation |
| CrcCombine.Combine | crypto/src/crc32.cpp:566-569 | for the checksums of any two messages, the checksum of their concatenation |
| TrailingZeros.OrDisjoint | fmt/format-inl.h:177-184 | a bitwise or of parts without common bits is their sum |
| TrailingZeros.RotrIs | fmt/format-inl.h:177-184 | a rotation, by shifts and a bitwise or, is the quotient plus the shifted-out bits on top, for both widths and every distance |
| TrailingZeros.ExactQuotient | fmt/format-inl.h:1159-1164 | the rotated product with the inverse is small exactly on multiples, and is then the quotient |
| TrailingZeros.StripZeros | fmt/format-inl.h:1159-1170 | n without its trailing zeros, and their count |
| TrailingZeros.RemoveTrailingZeros32 | fmt/format-inl.h:1153-1171 | n = m * 10^zeros with m not divisible by 10, for every nonzero n |
| TrailingZeros.StrippedUnique | fmt/format-inl.h:1153-1171 | that decomposition is the only one |
| TrailingZeros.Umul128 | fmt/format.h:1346-1372 | the 128-bit product from 32-bit halves, no partial sum overflowing |
| TrailingZeros.MagicTest | fmt/format-inl.h:1177-1184 | the multiplication by ceil(2^90 / 10^8) tells divisibility by 10^8 for every 64-bit n |
| TrailingZeros.RemoveTrailingZeros64 | fmt/format-inl.h:1174-1209 | which number is decomposed, and that it is n exactly below 2^32 * 10^8 or off the multiples of 10^8 |
| Utf8.DecodeAccepts | fmt/format.h:556-591 | no error exactly on the sequences of section 4 of RFC 3629 |
| Utf8.DecodeValue | fmt/format.h:570-578 | the value decoded is the scalar value whose encoding was read |
| Utf8.DecodeEncoded | fmt/format.h:556-591 | decoding an encoded scalar value gives it back, whatever follows |
| Utf8.PaddingStaysOut | fmt/format.h:616-630 | zero padding never completes a sequence |
| Codepoints.Utf8Decode | fmt/format.h:556-591 | length, value and error of the next character |
| Codepoints.ForEachCodepoint | fmt/format.h:598-630 | the calls cut the string into encoded scalar values and single invalid bytes, up to the first refusal of the callback |
| Codepoints.TilingUnique | fmt/format.h:598-630 | there is only one such way to cut a string |
| Transcode.Utf8ToUtf16 | fmt/format-inl.h:1411-1424 | succeeds exactly on well-formed UTF-8, with the UTF-16 units of the same text and a final 0 |
| Transcode.PushBytes | fmt/format.h:1323-1339 | the bytes of section 3 of RFC 3629, and failure exactly on what is no scalar value |
| Transcode.Convert | fmt/format.h:1306-1342 | the UTF-8 form of everything before the first failing unit, and success exactly if there is none, for units of two or four bytes and either policy |
| Transcode.UnitsScanned | fmt/format.h:1310-1322 | a unit string without failure is the UTF-16 form of what it scans to |
| Transcode.WellFormedScans | fmt/format.h:1310-1322 | conversion with the abort policy succeeds exactly on well-formed UTF-16 |
| Transcode.Utf8RoundTrip | fmt/format-inl.h:1411-1424 | UTF-8 to UTF-16 to UTF-8 is the identity on every well-formed text |
| Transcode.ReplaceAlwaysConverts | fmt/format.h:1313-1319 | with the replace policy every 16-bit unit string converts, to well-formed UTF-8 |
| Transcode.WideScan | fmt/format.h:1310-1342 | units of four bytes stand for themselves if they are scalar values, and fail otherwise |
| Transcode.PoliciesScan | fmt/format.h:1313-1319 | where the abort policy fails, the replace policy puts U+FFFD, and nowhere else |
| Transcode.EncodingsSpelled | fmt/format.h:1323-1339 | examples of RFC 3629 and RFC 2781 |
| OutputBuffer.Buffer.constructor | fmt/base.h:1936-1937 | an empty buffer, in place for a pointer |
| OutputBuffer.Buffer.Limit | fmt/base.h:1866-1870 | what may still be delivered, and the count of everything |
| OutputBuffer.Buffer.FlushIterator | fmt/base.h:1885-1891 | the buffer goes to the sink, up to the limit |
| OutputBuffer.Buffer.FlushPointer | fmt/base.h:1926-1933 | the pointer moves to the end of what was delivered, also if the buffer happens to lie right behind the array |
| OutputBuffer.Buffer.Grow | fmt/base.h:1921-1924 | a free slot in every kind of buffer, nothing lost |
| OutputBuffer.Buffer.TryReserve | fmt/base.h:1812-1814 | room for at least one more element |
| OutputBuffer.Buffer.PushBack | fmt/base.h:1816-1819 | one more element written |
| OutputBuffer.Buffer.Append | fmt/base.h:1829-1841 | all elements written; the loop terminates because each round has room |
| OutputBuffer.Buffer.Out | fmt/base.h:1949-1952 | what has been delivered in the end, for each kind |
| OutputBuffer.VformatToN | fmt/base.h:2868-2874 | the first min(n, total) characters in the sink and the total, for every sequence of calls |
| OutputBuffer.VformatToNInPlace | fmt/base.h:2868-2874 | the same in an array, whose other elements stay as they were |
| OutputBuffer.FormattedSize | fmt/base.h:2918-2923 | the counting buffer reports the same total |
| FormatSpecs.SpecsFromZero | fmt/compile.h:273-282 | specifiers are right in manual mode exactly if they are right for the compiler's context and take no automatic id, and then they mean the same |
| Decimals.DecimalReads | config/src/yaml.cpp:429-429 | a number is written in digits that denote it, without leading zeros |
| FormatGrammar.ArgIdRead | fmt/base.h:1332-1352 | the digits of an index are read as that index |
| FormatGrammar.SpecsRead | fmt/base.h:1445-1581 | specifiers written by the documented grammar are accepted for the types they suit, and mean what the documentation says of each letter |
| FormatGrammar.SpecsOnly | fmt/base.h:1445-1581 | nothing else is accepted: whatever the parser takes up to a closing brace is written by the grammar |
| FormatString.FormatAtRunTime | fmt/base.h:1629-1647 | the loop with its delayed text writes what the string means field by field |
| FormatFields.ItemsRun | fmt/base.h:1583-1647 | a string of escaped text and replacement fields writes the text and the arguments in turn, counted or numbered, with width and precision taken from the arguments they name |
| FormatFields.RunOnly | fmt/base.h:1583-1647 | nothing else is accepted |
| FormatFields.CharSpecs | fmt/base.h:1650-1660 | for a character shown as one the compiler refuses `#` and `0`, and takes them for one shown as a number |
| FormatString.SpecsCompile | fmt/compile.h:328-351 | specifiers accepted at run time compile to ones that write the same, with the same next id |
| FormatString.FieldCompiles | fmt/compile.h:355-402 | so does every replacement field, automatic or manual |
| FormatString.CompiledRuns | fmt/compile.h:355-415 | what the run-time formatter accepts and writes from a place on, the compiled tree writes |
| FormatString.CompilePreserves | fmt/compile.h:417-428 | the same for whole format strings and all unnamed arguments |
| FormatString.StrictRuns | fmt/compile.h:355-415 | conversely, a compiled string that writes something is accepted at run time exactly if it is strict |
| FormatString.StrayBrace | fmt/compile.h:403-406 | a single closing brace compiles and swallows the next character |
| FormatString.NestedAutomatic | fmt/compile.h:273-282 | {0:{}} compiles to a field of dynamic width and is an error at run time |
| IsoWeek.YearWeeks | fmt/chrono.h:1193-1202 | 53 weeks exactly for years that begin or end on a Thursday, from year 0 on |
| IsoWeek.WeekDateUnique | fmt/chrono.h:1207-1220 | a day has exactly one week date |
| IsoWeek.IsoWeekDate | fmt/chrono.h:1193-1220 | year and week are those of the Thursday of the day's week exactly if the year is not negative or the week is not 53 |
| IsoWeek.NegativeYearMissed | fmt/chrono.h:1193-1220 | a date of year -2 for which they are not |
| IsoWeek.KnownDates | fmt/chrono.h:1193-1220 | weekdays and week dates of known days |
| RingList.ListInit | kcp/3rd_party/list.h:43-47 | an empty list |
| RingList.AddBetween | kcp/3rd_party/list.h:55-63 | one more node between the last and the first of a ring |
| RingList.ListAdd | kcp/3rd_party/list.h:73-76 | the node in front of the items |
| RingList.ListAddTail | kcp/3rd_party/list.h:87-90 | the node behind them |
| RingList.ListDel | kcp/3rd_party/list.h:99-121 | the ring without the entry, whose own links stay; a node alone stays a ring |
| RingList.ListReplace | kcp/3rd_party/list.h:130-137 | the new node in the old one's place, also for a node alone and for the same node |
| RingList.ListReplaceInit | kcp/3rd_party/list.h:139-144 | and the old one an empty list, also if it replaces itself |
| RingList.ListDelInit | kcp/3rd_party/list.h:150-154 | the ring without the entry, and the entry an empty list |
| RingList.ListMove | kcp/3rd_party/list.h:161-165 | the entry at the front, from within the list or from another ring, which loses it; moved to itself it is a list of its own |
| RingList.ListMoveTail | kcp/3rd_party/list.h:172-179 | the entry at the back, likewise |
| RingList.ListIsLast | kcp/3rd_party/list.h:186-190 | whether an item is the last |
| RingList.ListEmpty | kcp/3rd_party/list.h:196-199 | whether there are no items |
| RingList.ListEmptyCareful | kcp/3rd_party/list.h:214-218 | the same by both links |
| RingList.ListRotateLeft | kcp/3rd_party/list.h:224-232 | the first item goes to the back |
| RingList.ListIsSingular | kcp/3rd_party/list.h:238-241 | whether there is exactly one item |
| RingList.CutAfter | kcp/3rd_party/list.h:243-253 | a list cut in two behind an item |
| RingList.ListCutPosition | kcp/3rd_party/list.h:269-281 | the first k items in the other list and the rest left; what happens at the head, on an empty list and for a foreign entry |
| RingList.SpliceBetween | kcp/3rd_party/list.h:283-295 | the items of a list between the last and the first of a ring |
| RingList.ListSplice | kcp/3rd_party/list.h:302-307 | the items in front of the other list's |
| RingList.ListSpliceTail | kcp/3rd_party/list.h:314-319 | and behind them |
| RingList.ListSpliceInit | kcp/3rd_party/list.h:328-335 | in front, and the first list empty |
| RingList.ListSpliceTailInit | kcp/3rd_party/list.h:345-352 | behind, and the first list empty |
| RwLock.StepInv | config/src/rwmutex.cpp:24-67 | every step of every thread keeps the counters, the mutex, the exclusion and the pending wake-ups right |
| RwLock.RunInv | config/src/rwmutex.cpp:24-67 | so they hold in every state of every run |
| RwLock.WriterAlone | config/src/rwmutex.cpp:46-67 | a thread inside the write lock is alone in the lock |
| RwLock.WritersFirst | config/src/rwmutex.cpp:24-32 | a reader that enters finds no writer inside and none waiting |
| RwLock.UnlockCounted | config/src/rwmutex.cpp:34-44 | the assertion of `runlock` never fails, and no counter goes below zero |
| RwLock.NoLostWakeUp | config/src/rwmutex.cpp:34-67 | when a sleeping thread might enter, a notification is still to come, although it is sent after unlocking |
| RwLock.SleepersAttended | config/src/rwmutex.cpp:24-67 | while a thread sleeps, another is inside the lock or has steps of its own to do |
| RwLock.ReaderSleeps | config/src/rwmutex.cpp:24-56 | there is a run in which a reader sleeps behind a writer |
| RwLock.BusyMoves | config/src/rwmutex.cpp:24-67 | while a thread has steps to do, some such thread can move |
| RwProgress.AdvanceFalls | config/src/rwmutex.cpp:24-67 | every step that is no new request and no spurious wake-up makes a measure of the state smaller |
| RwProgress.DrainingEnds | config/src/rwmutex.cpp:24-67 | so no run without new requests is longer than the measure of its start, in whatever order the threads move |
| RwProgress.RestIsIdle | config/src/rwmutex.cpp:24-67 | when nothing can move any more, every thread is idle |
| RwProgress.EveryoneGetsIn | config/src/rwmutex.cpp:24-67 | and every thread that had asked for the lock, asleep or not, has been inside it |
| ConfigPath.PathInjective | config/src/yaml.cpp:326-354 | two positions never share a path |
| ConfigPath.BracketsRead | config/src/yaml.cpp:428-430 | what stands in brackets is the index in decimal digits, without leading zeros |
| ConfigPath.PathsSpelled | config/src/yaml.cpp:339-354 | how paths look, for example $list[0].a |
| ConfigPath.TokenizePath | config/src/yaml.cpp:356-376 | the nonempty parts between dots |
| ConfigPath.PartsBetween | config/src/yaml.cpp:356-376 | for any text: what stands between dots, unless that is nothing |
| ConfigPath.TokensOfPath | config/src/json.cpp:326-346 | the tokens of a position's path are its keys with their indices, and joined by dots they are the path |
| ConfigWalk.AtKey | config/src/yaml_node.cpp:87-119 | the value of the first pair with the key |
| ConfigIndex.BeforeOnce | config/src/yaml.cpp:389-437 | the order of the visit is strict: no two positions are before each other |
| ConfigIndex.FoundOnce | config/src/yaml.cpp:402-403 | the first position with a path gives it one node |
| ConfigIndex.PushYaml | config/src/yaml.cpp:406-437 | a frame for every child, the first on top, and refusal exactly of a complex key |
| ConfigIndex.PushJson | config/src/json.cpp:375-392 | a frame for every child, the last on top, empty keys passed over |
| ConfigIndex.TopFirst | config/src/yaml.cpp:392-394 | what is taken off the stack is visited before everything that waits |
| ConfigIndex.StackLighter | config/src/yaml.cpp:392-438 | a measure by which every round makes the stack lighter |
| ConfigIndex.BuildMap | config/src/yaml.cpp:378-439 | terminates; for documents with any keys the index holds the path of every position and nothing else, each with the node of the first position visited with that path; the tokens of every path; the error cases exactly |
| ConfigWalk.WalkPlace | config/src/json_node.cpp:86-124 | where iterated `at` leads, the index has a position with the same node and path |
| ConfigWalk.IndexedEntered | config/src/json.cpp:378-384 | so a node is entered under its path, unless an empty JSON key lies on the way |
| ConfigWalk.LookupIsWalk | config/src/yaml.cpp:143-167 | for any keys: a lookup gives what iterated `at` finds exactly if the node is entered under the path and not shadowed by one visited earlier |
| ConfigWalk.PlainLookup | config/src/json.cpp:375-392 | with keys free of dots and brackets, repeated or not: YAML finds what `at` finds, JSON what the last of equal keys leads to |
| ConfigWalk.OnePosition | config/src/yaml.cpp:326-439 | with plain and distinct keys two positions never share a path |
| ConfigWalk.IndexIsWalk | config/src/yaml.cpp:143-167 | with plain and distinct keys looking up is walking, to a node or to nothing |
| ConfigWalk.RootFound | config/src/yaml.cpp:345-347 | the root's path finds the root, although a child with the empty key has the same path |
| ConfigWalk.RepeatedKey | config/src/json.cpp:375-384 | of two equal JSON keys `at` takes the first and the index the last |
| ConfigWalk.DottedKey | config/src/yaml.cpp:339-354 | a dotted key hides the position its parts lead to |
| ConfigWalk.ItemFound | config/src/json.cpp:386-392 | in the list [x, y] the path $list[1] finds y |
| ConfigWalk.EmptyKey | config/src/json.cpp:378-384 | an empty key below another is a position for YAML and none for JSON |
| ConfigWalk.TokensJoin | config/src/json.cpp:370-373 | the tokens kept for an entry, joined, are its path |
| ConfigParser.Parser.Load | config/src/yaml.cpp:91-135 | a document is published when its index is complete, and otherwise the old one stays; success exactly if nothing is refused |
| ConfigParser.Parser.Reset | config/src/json.cpp:136-139 | nothing is published any more |
| ConfigParser.Parser.GetNode | config/src/json.cpp:141-162 | the node of the first position with the path, or nothing if there is none; what iterated `at` finds, exactly if that is entered and not shadowed |
| IniFile.EntryLine | config/src/IniConfig.cpp:87-127 | an entry line reads back as its entry |
| IniFile.SectionLine | config/src/IniConfig.cpp:101-110 | a heading reads back as its section |
| IniFile.IniConfig.Parse | config/src/IniConfig.cpp:67-131 | the entries of all lines up to the first bad one, read through a buffer of 1024 characters |
| IniGrammar.CommentCut | config/src/IniConfig.cpp:87-93 | a comment is cut off a line, whatever it says |
| IniGrammar.LineExact | config/src/IniConfig.cpp:94-127 | every line without a comment: nothing, a section, an entry or an error, by its brackets, its equals sign and its names |
| IniGrammar.LineRead | config/src/IniConfig.cpp:87-127 | blank lines, headings and entries with blanks anywhere around their names and values are accepted; a repeated key takes the later value |
| IniGrammar.LineOnly | config/src/IniConfig.cpp:87-127 | no other line is accepted |
| IniGrammar.FileRead | config/src/IniConfig.cpp:67-131 | a file of such lines, with or without comments, is read from top to bottom |
| IniGrammar.BadLineStops | config/src/IniConfig.cpp:103-124 | a refused line ends the reading, and what was read before it stays |
| IniGrammar.LongLineCut | config/src/IniConfig.cpp:82-85 | a longer line is taken in pieces of 1023 characters |
| IniGrammar.LongEntryCut | config/src/IniConfig.cpp:198-211 | a longer entry is written up to its 511th character |
| IniFile.Nest | config/src/IniConfig.cpp:186-192 | every entry in its section, and nothing else there |
| IniFile.SplitJoined | config/src/IniConfig.cpp:44-55 | splitting a full key undoes joining it |
| IniFile.IniConfig.Keep | config/src/IniConfig.cpp:173-232 | the text written reads back as the same map |

## Left out

- FormatDragon: the exponent estimate is a precondition here (`EstimateHolds`), proved for the caller in `DragonEstimate`; the output is a sequence of digits, not a character buffer.
- FormatFloat.FormatFloat: the floating-point expression of the estimate is a real number within 1e-11 of its exact value; the path for doubles with their precomputed powers is left out.
- BigintModel.Bigint.Square: sizes and exponents are unbounded numbers; the int fields of the source are respected only through the bound on the number of bigits.
- Crc32.Crc32Z: the big-endian branch and the ARM instructions are not modelled; tables are given by meaning, since the header that holds them is not part of this model.
- CrcCombine.X2nmodp: a negative length, for which the source's loop would not end, is excluded.
- TrailingZeros.RemoveTrailingZeros64: multiples of 2^32 * 10^8 are excluded, on which the nested call breaks its own assertion; the rest of Dragonbox and its tables are left out.
- ConfigIndex.BuildMap: documents are tables of nodes without cycles, since on others the source's loop does not end; the libraries that parse text are not modelled, nor are the visitor functions.
- ConfigParser.Parser.Load: memory ordering of the snapshot pointer is not modelled; reading the file is left out.
- ConfigWalk.TokensJoin: stated for keys free of dots and brackets, since the tokens of others cannot be told apart.
- IniFile.IniConfig.Keep: files are texts, and opening or writing them cannot fail; the ordered maps are visited in any order, the global section first, so an entry of exactly 511 characters, which loses its newline and is read back only as the last of its section, is excluded.
- IniFile.IniConfig.Parse: the second map, sorted by section, is rebuilt by `keep` and modelled only there; single lookups, assignment and deletion would add only easy members.
- RwLock.RunInv: the lock is a state machine on values, not an object; fewer than 2^32 threads; a thread unlocks only what it has locked.
- RwProgress.EveryoneGetsIn: while new requests keep coming, readers can starve behind the writers, which go first; fairness of the scheduler is then needed and not modelled.
- RingList.ListAdd: the `hlist` functions and iteration macros are left out.
- OutputBuffer.Buffer.Append: size_t is unbounded; the growing container and memory buffers are left out.
- FormatString.CompilePreserves: arguments are built-in and unnamed, and writing one is a function of the argument and its specifiers; custom formatters and named fields are left out.
- Transcode.Convert: allocation failure is not modelled.
- Locale, colour, range and printf support, reflection, the bitmap, base64 and SQL helpers are left out: tables, I/O, template plumbing or easy members.
