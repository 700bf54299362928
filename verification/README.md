# Verified models of the logging library's hard core and of the service's protocols

This project models, in Dafny, the parts of the repository whose correctness is hardest to see, and proves
what they are for. It has three layers.

**Printing and scanning** (`contrib/spdlog`, the bundled formatting library)

- `Arithmetic.dfy`, `Bigits.dfy`, `Comparison.dfy`, `Convolution.dfy`, `Bigint.dfy`: multi-precision integers as
  little-endian 32-bit digits with a power-of-2^32 exponent, in the form of a class whose methods update the
  digits in place. Every operation is proved against the number denoted.
- `Decimal.dfy`, `Dragon4.dfy`: exact digits of floating-point values on top of those integers.
- `Grisu.dfy`: the fast digit generator, which must round soundly or report an error.
- `TrailingZeros.dfy`: removing trailing zeros by multiplication with modular inverses.
- `IntegerText.dfy`, `Grouping.dfy`: decimal text of integers, with and without thousands separators.
- `FormatScan.dfy`, `FormatPieces.dfy`: the two scanners of format strings, and what the strings mean, piece by piece.
- `Utf8.dfy`, `Utf8Units.dfy`: the UTF-8 encoder and the branchless decoder (section 3 of RFC 3629).

**Asynchronous and rotating logs** (`contrib/spdlog`)

- `CircularQueue.dfy`, `BlockingQueue.dfy`, `ThreadPool.dfy`: the ring of slots, the queue under its lock, and
  the worker pool as a step system over all interleavings of posters, workers and destructor.
- `Rotation.dfy`: log rotation over a directory of named files, with renames that may fail.

**The service** (`src`)

- `Client.dfy`: the machine that keeps one operation in flight on a stream.
- `Server.dfy`: the handshake between the thread that reads requests and the one that serves scores.
- `DeltaCache.dfy`: the cache that hands out score changes.

`Options.dfy` and `SportsLines.dfy` hold two datatypes that several of these share.

`dafny verify dfyconfig.toml` checks everything.

## How the model reads the code

Machine words are integers with their range written out; wherever the code relies on wrapping or on not
wrapping, that is stated and proved. Loops that write into buffers are methods with `modifies` clauses, proved
against functions; protocols are functions from state to state for each step, with lemmas over all runs. A
thrown exception or a reported error is a value. A call that has to wait is a step that is not enabled, or a
method that reports that nothing was done.

Where the code does not do what one would expect, the model keeps the code, gives an input, and says exactly
when the expectation holds:

- `compare` orders equal numbers of different lengths by length (format-inl.h, line 493), and any number below a zero
  that is written above all its positions. In the shortest-digits loop the former hides every tie with the lower end
  of the interval once e/32 > exp10/32 and e >= 32, e being the binary exponent; otherwise it hides none. Where it
  does, the lower end is never produced, and the digits are the shortest exactly unless the lower end is itself the
  shortest nearest number of an even significand.
- `subtract_aligned` repays a borrow in one bigit only (line 400): `SubtractAligned` gives the result in both cases.
- `utf8_decode` reports no error for a stray byte in lead position, against its comment (format.h, line 445).
- The pool's destructor finishes exactly if the queue has some capacity and no terminate message was overrun, which
  takes a post that does not wait on a full queue with a terminate in front. Otherwise it waits for ever.
- Rotating on open keeps the old size: the sink then overestimates the base file, exactly until a message rotates.
- The server does not notice other sports of the same number. Its writer comes to sleep on a flagged change exactly
  when the last notification fell between its look at the flag and its sleep.
- A line repeated in one request loses what its earlier turns hand out, exactly if that is not 0 in all.

## Model

| member | source | states |
|---|---|---|
| `BigIntegers.Accumulator.Add` | contrib/spdlog/include/spdlog/fmt/bundled/format-inl.h:351-354 | the two-word sum grows by exactly the double word added: the carry test on the low word is exact |
| `BigIntegers.Accumulator.Shift32` | contrib/spdlog/include/spdlog/fmt/bundled/format-inl.h:355-360 | the sum is divided by 2^32, both words staying 64 bits wide |
| `BigIntegers.Bigint.SubtractBigits` | contrib/spdlog/include/spdlog/fmt/bundled/format-inl.h:380-384 | one bigit minus another minus a borrow of 0 or 1, exact with the new borrow, which is 0 or 1 again |
| `BigIntegers.Bigint.RemoveLeadingZeros` | contrib/spdlog/include/spdlog/fmt/bundled/format-inl.h:386-390 | the value and the exponent stay, and no leading zero bigit is left except in zero itself |
| `BigIntegers.Bigint.Multiply32` | contrib/spdlog/include/spdlog/fmt/bundled/format-inl.h:404-413 | the value is multiplied by any 32-bit number, whatever its length and exponent |
| `BigIntegers.Bigint.Multiply64` | contrib/spdlog/include/spdlog/fmt/bundled/format-inl.h:415-430 | the value is multiplied by any nonzero 64-bit number |
| `BigIntegers.WideProductFits` | contrib/spdlog/include/spdlog/fmt/bundled/format-inl.h:415-430 | no sum in the 64-bit multiplication wraps: with the largest operands the carry just stays below 2^64 |
| `BigIntegers.Bigint.AssignFrom` | contrib/spdlog/include/spdlog/fmt/bundled/format-inl.h:440-446 | the same bigits and exponent as the other number |
| `BigIntegers.Bigint.Assign` | contrib/spdlog/include/spdlog/fmt/bundled/format-inl.h:448-456 | the value is the 64-bit number assigned, without leading zero bigits |
| `BigIntegers.Bigint.ShiftLeft` | contrib/spdlog/include/spdlog/fmt/bundled/format-inl.h:460-473 | the value is multiplied by 2^shift for every shift, whole words going into the exponent |
| `BigIntegers.Compare` | contrib/spdlog/include/spdlog/fmt/bundled/format-inl.h:481-495 | the exact sign of the difference for all operands, except that equal numbers written with different lengths are ordered by length, and that a zero written above all positions of the other number counts as larger |
| `Comparison.VerdictDecidesAtLeast` | contrib/spdlog/include/spdlog/fmt/bundled/format-inl.h:481-495 | when the left operand has no larger exponent, or the values differ, the comparison decides `>=` correctly, in both directions |
| `BigIntegers.AddCompare` | contrib/spdlog/include/spdlog/fmt/bundled/format-inl.h:498-519 | for operands of any lengths and exponents the exact sign of a + b - c, except that a zero whose exponent lies above all positions of the other side counts as larger |
| `BigIntegers.CompareDownTo` | contrib/spdlog/include/spdlog/fmt/bundled/format-inl.h:507-518 | the loop with the running borrow returns the sign of the weighted difference of the digits: both early exits are justified |
| `BigIntegers.Bigint.AssignPow10` | contrib/spdlog/include/spdlog/fmt/bundled/format-inl.h:522-539 | exactly 10^power, for every power below 2^30, by repeated squaring and one shift |
| `BigIntegers.Bigint.Square` | contrib/spdlog/include/spdlog/fmt/bundled/format-inl.h:541-568 | exactly the square of the value, for fewer than 2^30 bigits |
| `Convolution.ColumnsAreProduct` | contrib/spdlog/include/spdlog/fmt/bundled/format-inl.h:548-565 | the columns of the schoolbook product, weighted by their places, add up to the product of the two values |
| `BigIntegers.SquareIsComplete` | contrib/spdlog/include/spdlog/fmt/bundled/format-inl.h:559-565 | after the last column nothing is left in the accumulator, and what is stored is the square |
| `BigIntegers.Bigint.Align` | contrib/spdlog/include/spdlog/fmt/bundled/format-inl.h:572-581 | the value stays while the exponent comes down to the other number's |
| `BigIntegers.Bigint.SubtractAligned` | contrib/spdlog/include/spdlog/fmt/bundled/format-inl.h:393-402 | the exact difference if the last borrow can be repaid by the next bigit; otherwise exactly what the result is off by |
| `BigIntegers.FewPositionsRepayable` | contrib/spdlog/include/spdlog/fmt/bundled/format-inl.h:393-400 | at most one position more than the subtrahend is enough for the borrow to be repaid |
| `BigIntegers.NotAlwaysRepayable` | contrib/spdlog/include/spdlog/fmt/bundled/format-inl.h:400 | a pair with two more positions for which the single repaying bigit is not enough |
| `BigIntegers.Bigint.DivModAssign` | contrib/spdlog/include/spdlog/fmt/bundled/format-inl.h:585-596 | old value = quotient * divisor + new value, and the new value is below the divisor |
| `Dragon4.RatioIsValue` | contrib/spdlog/include/spdlog/fmt/bundled/format-inl.h:2233-2266 | numerator / denominator * 10^exp10 is the floating-point value in all three set-up cases, as the comment there claims |
| `Dragon4.SetUpOperands` | contrib/spdlog/include/spdlog/fmt/bundled/format-inl.h:2233-2265 | the big integers hold numerator, denominator and both gaps, for either gap shape |
| `Dragon4.GapsAreHalfDistances` | contrib/spdlog/include/spdlog/fmt/bundled/format-inl.h:2233-2265 | in the numerator's units the gaps are half the distances to the neighbouring floating-point values, the one below being half as far when the significand is the smallest |
| `Dragon4.OneRoundedDigit` | contrib/spdlog/include/spdlog/fmt/bundled/format-inl.h:2299-2303 | with no digits asked for: 1 or 0, the value rounded half to even to a multiple of 10^(exp10+1) |
| `Dragon4.GivenDigits` | contrib/spdlog/include/spdlog/fmt/bundled/format-inl.h:2305-2330 | with a digit count: only decimal digits, and together with the exponent the value rounded half to even, also when a carry out of nines bumps the exponent |
| `Dragon4.RoundHalfEvenIsNearest` | contrib/spdlog/include/spdlog/fmt/bundled/format-inl.h:2311-2315 | no integer is nearer than the rounded one, and of two nearest ones the even one is taken |
| `Dragon4.StoreLast` | contrib/spdlog/include/spdlog/fmt/bundled/format-inl.h:2313-2330 | storing the last digit, rounded up or not, denotes the digits plus the rounding |
| `Decimal.CarryChain` | contrib/spdlog/include/spdlog/fmt/bundled/format-inl.h:2315-2321 | the carry loop keeps the number denoted, and an overflow can only remain in the first digit, with zeros after it |
| `Dragon4.ShortestDigits` | contrib/spdlog/include/spdlog/fmt/bundled/format-inl.h:2267-2295 | the loop ends; its digits lie in the rounding interval and nearest to the value at their own precision, and no coarser precision has a number in the interval; the lower end belongs to it if and only if ties with it are noticed |
| `Dragon4.ShortestIff` | contrib/spdlog/include/spdlog/fmt/bundled/format-inl.h:2267-2295 | digits that are shortest without the lower end are shortest with it exactly unless the significand is even and the lower end would be the shortest and nearest number itself |
| `Dragon4.ShortestStep` | contrib/spdlog/include/spdlog/fmt/bundled/format-inl.h:2273-2294 | each round produces one digit and keeps remainder, gaps and digits in step while the gap grows tenfold |
| `Dragon4.Decide` | contrib/spdlog/include/spdlog/fmt/bundled/format-inl.h:2275-2287 | exactly when the loop stops; then the neighbour chosen is good, the lower end not being chosen where ties are missed, and a 9 is never pushed past 9; otherwise no number of this precision is noticed in the interval |
| `Dragon4.LowerTieIsMissed` | contrib/spdlog/include/spdlog/fmt/bundled/format-inl.h:2275 | for one value with binary exponent 32, whose interval starts exactly at a four-digit number, all digits the function may produce are longer and are not the shortest of the whole interval |
| `Dragon4.ChooseNeighbour` | contrib/spdlog/include/spdlog/fmt/bundled/format-inl.h:2279-2287 | truncated digits or their successor: the one picked is in the interval and nearest to the value |
| `Dragon4.ComparesWithLower` | contrib/spdlog/include/spdlog/fmt/bundled/format-inl.h:2275 | the comparison with the lower gap is exact but for a tie, which it notices if and only if the remainder has no more bigits than the gap; with equal exponents it always does |
| `Dragon4.ValueNeverReaches` | contrib/spdlog/include/spdlog/fmt/bundled/format-inl.h:2233-2247 | for exponents of 32 and above no power-of-ten multiple of the numerator equals the denominator, so the zero-quotient shortcut of the division is safe |
| `Dragon4.FallbackFormat` | contrib/spdlog/include/spdlog/fmt/bundled/format-inl.h:2217-2330 | the whole function: exactly the requested digits rounded half to even, or the shortest digits; these are the shortest of the rounding interval with its ends (for even significands) if and only if e/32 <= exp10/32 or e < 32, or the lower end is not the shortest nearest number; otherwise they are the shortest without the lower end |
| `Grisu.DirectionIsSound` | contrib/spdlog/include/spdlog/fmt/bundled/format-inl.h:605-619 | a direction is reported exactly when every number within the error rounds that way; an exact tie goes down |
| `Grisu.UnknownIsUndecided` | contrib/spdlog/include/spdlog/fmt/bundled/format-inl.h:605-619 | no direction is reported exactly when two numbers within the error round to different digits |
| `Grisu.HalfUnitForReals` | contrib/spdlog/include/spdlog/fmt/bundled/format-inl.h:605-619 | what that means for every real number within the error: the result is within half a unit of it |
| `Grisu.FixedHandler.OnStart` | contrib/spdlog/include/spdlog/fmt/bundled/format-inl.h:727-742 | the precision adjustment; when generation ends at once; that the single digit then written is the rounding direction; an error exactly if that is undecided |
| `Grisu.FixedHandler.OnDigit` | contrib/spdlog/include/spdlog/fmt/bundled/format-inl.h:744-774 | more digits are asked for exactly below the precision and while the error is below the rest of the fraction; otherwise an error exactly if the error has reached that rest, or half the unit, or leaves the rounding undecided; done means that the digits are soundly rounded |
| `Grisu.FixedHandler.RoundUp` | contrib/spdlog/include/spdlog/fmt/bundled/format-inl.h:761-772 | the number grows by exactly one unit through the carry loop, with a further digit or a larger exponent when the first digit overflows |
| `Grisu.IntegralStep` | contrib/spdlog/include/spdlog/fmt/bundled/format-inl.h:657-706 | removing the leading integral digit keeps digits * unit + remainder equal to the scaled value, and the digit is at most 9 |
| `Grisu.FractionalStep` | contrib/spdlog/include/spdlog/fmt/bundled/format-inl.h:708-716 | so does moving a digit out of the fraction, where the error grows tenfold |
| `Grisu.UnitFits` | contrib/spdlog/include/spdlog/fmt/bundled/format-inl.h:702-704 | the unit handed to the handler fits 64 bits and is far above the error |
| `Grisu.GenIntegral` | contrib/spdlog/include/spdlog/fmt/bundled/format-inl.h:657-706 | over all integral digits the account holds; it ends at the first position where the precision is reached, with an error exactly if the rounding is undecided there, and whatever it is done with is sound |
| `Grisu.GenFractional` | contrib/spdlog/include/spdlog/fmt/bundled/format-inl.h:707-716 | over the fractional digits too; the loop ends, at the first position where the precision is reached or the error drowns the rest, with an error exactly if there is no sound answer there; no 64-bit product wraps |
| `Grisu.GrisuGenDigits` | contrib/spdlog/include/spdlog/fmt/bundled/format-inl.h:640-717 | from error 1 and exponents -60 to -32: when done the decimal is within half a last-place unit of every number within the error; an error is reported exactly if the first position where it can stop has no sound answer |
| `TrailingZeros.InverseDivides` | contrib/spdlog/include/spdlog/fmt/bundled/format-inl.h:1928-1942 | n * inverse(p) mod word is at most (word-1)/p exactly when p divides n, and then it is n / p |
| `TrailingZeros.RemoveTrailingZeros32` | contrib/spdlog/include/spdlog/fmt/bundled/format-inl.h:1919-1944 | old n = new n * 10^s with s at most 7, and new n is no multiple of 10 unless the cap was reached |
| `TrailingZeros.RemoveTrailingZeros64` | contrib/spdlog/include/spdlog/fmt/bundled/format-inl.h:1947-2029 | the same for 0 < n < 10^17 with cap 16, through the division by 10^8 |
| `TrailingZeros.StripQuotient` | contrib/spdlog/include/spdlog/fmt/bundled/format-inl.h:1965-1980 | the branch that first drops eight zeros |
| `TrailingZeros.StripRemainder` | contrib/spdlog/include/spdlog/fmt/bundled/format-inl.h:1982-2028 | the branch that works on the low eight digits and puts the number together again |
| `IntegerText.CountDigitsFallback` | contrib/spdlog/include/spdlog/fmt/bundled/format.h:899-912 | the number of decimal digits, counted four at a time |
| `IntegerText.FormatDecimal` | contrib/spdlog/include/spdlog/fmt/bundled/format.h:1049-1078 | exactly the decimal digits of the value just before `size`, and nothing else in the buffer changes |
| `Decimal.DecTextValue` | contrib/spdlog/include/spdlog/fmt/bundled/format.h:1049-1078 | these digits denote the value |
| `IntegerText.FormatAfterParse` | contrib/spdlog/include/spdlog/fmt/bundled/format.h:1049-1078 | writing what was read gives the digits back, if they have no superfluous leading zero |
| `IntegerText.ParseNonnegativeInt` | contrib/spdlog/include/spdlog/fmt/bundled/core.h:2096-2116 | the value of the digits if there are at most ten and it fits an int, the error value otherwise, and where the digits end |
| `IntegerText.ParseDecision` | contrib/spdlog/include/spdlog/fmt/bundled/core.h:2107-2115 | the overflow test on the last digit is exact although the 32-bit accumulator may have wrapped |
| `IntegerText.ParseAfterFormat` | contrib/spdlog/include/spdlog/fmt/bundled/core.h:2096-2116 | reading back what was written gives the number, for everything an int holds |
| `IntegerText.ParsesExactly` | contrib/spdlog/include/spdlog/fmt/bundled/core.h:2096-2116 | any digits after any number of zeros: the number they denote up to the largest int, else the error value |
| `IntegerText.EveryRun` | contrib/spdlog/include/spdlog/fmt/bundled/core.h:2096-2116 | every run of digits is of that form, and what the parser does with it follows |
| `FormatScan.ParseFormatString` | contrib/spdlog/include/spdlog/fmt/bundled/core.h:2382-2432 | short strings in one pass, others in two: both deliver the same fields and errors in the same order, and the same text between them, for every handler |
| `FormatScan.OnePass` | contrib/spdlog/include/spdlog/fmt/bundled/core.h:2389-2406 | the loop over short strings delivers the reference trace |
| `FormatScan.TwoPass` | contrib/spdlog/include/spdlog/fmt/bundled/core.h:2407-2432 | so does the search for opening braces with the text pass in between |
| `FormatScan.WriteText` | contrib/spdlog/include/spdlog/fmt/bundled/core.h:2407-2420 | the text pass handles doubled closing braces and reports single ones where the reference does |
| `FormatScan.ParseReplacementField` | contrib/spdlog/include/spdlog/fmt/bundled/core.h:2342-2379 | an escaped brace, an automatic, numbered or named argument, specifiers, and each error, as in the reference |
| `FormatScan.ParseArgId` | contrib/spdlog/include/spdlog/fmt/bundled/core.h:2164-2200 | the argument reference at the position and where it ends, or none if it is malformed |
| `FormatPieces.EscapeRoundTrip` | contrib/spdlog/include/spdlog/fmt/bundled/core.h:2382-2432 | text with its braces doubled is delivered back as that text, whatever the handler |
| `FormatPieces.PiecesRoundTrip` | contrib/spdlog/include/spdlog/fmt/bundled/core.h:2164-2432 | any pieces of text and of automatic, numbered and named fields, with and without specifiers, written as a string: a handler that takes them is told exactly these, with the numbers denoted, the names and the positions |
| `FormatPieces.FlawEndsScan` | contrib/spdlog/include/spdlog/fmt/bundled/core.h:2164-2379 | after such pieces each mistake ends the scan with its own error: nothing or no reference after the brace, an unfinished number or name, specifiers that do not end at a closing brace, and each refusal of the handler |
| `FormatPieces.LoneBraceEndsScan` | contrib/spdlog/include/spdlog/fmt/bundled/core.h:2393-2417 | so does a single closing brace, and the text read before it is not told |
| `FormatPieces.NameCharacters` | contrib/spdlog/include/spdlog/fmt/bundled/core.h:2159-2193 | which characters begin and continue a name, letter by letter |
| `FormatScan.JoinedIff` | contrib/spdlog/include/spdlog/fmt/bundled/core.h:2382-2432 | two deliveries count as the same exactly if they tell the same characters and the same other events in the same order |
| `Grouping.WriteIntLocalized` | contrib/spdlog/include/spdlog/fmt/bundled/format.h:1396-1447 | prefix and digits with separators, filling the buffer of the computed size exactly; false without a separator |
| `Grouping.LocalizedSize` | contrib/spdlog/include/spdlog/fmt/bundled/format.h:1403-1413 | the first loop, with its quotient for the repeated last group, computes the length of that text |
| `Grouping.FillBackwards` | contrib/spdlog/include/spdlog/fmt/bundled/format.h:1420-1438 | the second loop stores the text backwards and ends just after the prefix |
| `Grouping.SeparatorsDeleted` | contrib/spdlog/include/spdlog/fmt/bundled/format.h:1396-1447 | deleting the separators leaves the digits |
| `Grouping.LocalizedReadsBack` | contrib/spdlog/include/spdlog/fmt/bundled/format.h:1396-1447 | so deleting them from the whole text leaves the prefix and decimal digits that denote the value |
| `Grouping.SeparatorsAtBoundaries` | contrib/spdlog/include/spdlog/fmt/bundled/format.h:1425-1436 | the j-th separator from the right has exactly the digits of the first j groups to its right |
| `Grouping.LeadingDigitsFit` | contrib/spdlog/include/spdlog/fmt/bundled/format.h:1407-1413 | no separator is missing: the digits in front of all of them fit the next group, and there is at least one |
| `Grouping.SignWritten` | contrib/spdlog/include/spdlog/fmt/bundled/format.h:1416-1440 | a prefix that is a sign under its length byte, as format.h, line 883 has it, is written as that sign; without a prefix nothing is |
| `Grouping.EveryGroupSize` | contrib/spdlog/include/spdlog/fmt/bundled/format.h:1403-1436 | one group size: from 1 to 126 the text has one separator for every full group in front of which digits remain; any other byte puts in none |
| `Utf8.ForEachCodepoint` | contrib/spdlog/include/spdlog/fmt/bundled/format.h:487-510 | in-place blocks and zero-padded tail together report what a plain decoder reports, for every byte string |
| `Utf8.Utf8Decode` | contrib/spdlog/include/spdlog/fmt/bundled/format.h:451-484 | the four-byte branchless decoding with its tables, and how far it advances |
| `Utf8.RoundTrip` | contrib/spdlog/include/spdlog/fmt/bundled/format.h:451-510 | decoding the encoding of any scalar values reports exactly those, with error 0 |
| `Utf8.ErrorIsExact` | contrib/spdlog/include/spdlog/fmt/bundled/format.h:471-482 | error 0 exactly for the encoding of the code point reported, or for a stray byte in lead position |
| `Utf8.StrayByteIsNoError` | contrib/spdlog/include/spdlog/fmt/bundled/format.h:445-482 | a lone continuation byte is reported without error, although the comment promises an error for every invalid sequence |
| `Utf8.OnlyEncodingsHaveNoErrors` | contrib/spdlog/include/spdlog/fmt/bundled/format.h:451-510 | stray bytes aside, a string without errors is the encoding of what was reported |
| `Utf8.EncodeScalar` | contrib/spdlog/include/spdlog/fmt/bundled/chrono.h:330-346 | every scalar value has an encoding, of one to four bytes |
| `Utf8.EncodingExactly` | contrib/spdlog/include/spdlog/fmt/bundled/chrono.h:330-346 | the encoder produces exactly what the table in section 3 of RFC 3629 allows, in the shortest form, and nothing for surrogates or beyond the last code point |
| `Utf8Units.EncodeUnits` | contrib/spdlog/include/spdlog/fmt/bundled/chrono.h:320-349 | the encoder loop over wide or 16-bit code units, surrogate pairs included; none stands for the thrown error |
| `Utf8Units.SurrogatesExactly` | contrib/spdlog/include/spdlog/fmt/bundled/chrono.h:321-329 | a code point above 16 bits is a high and a low surrogate with ten bits of its offset each, any other one unit |
| `Utf8Units.ScalarsIff` | contrib/spdlog/include/spdlog/fmt/bundled/chrono.h:321-346 | units are accepted exactly if they spell scalar values, one each or in surrogate pairs, and as those values |
| `Utf8Units.EncodedUnitsDecode` | contrib/spdlog/include/spdlog/fmt/bundled/chrono.h:320-349 | whatever the encoder accepts is reported back by the decoder as the code points the units spell |
| `Utf8Bits.EncoderBits` | contrib/spdlog/include/spdlog/fmt/bundled/chrono.h:330-346 | the masks, shifts and ors of the encoder are the quotients and remainders used in the model |
| `Utf8Bits.SurrogateBits` | contrib/spdlog/include/spdlog/fmt/bundled/chrono.h:323-329 | so are those that recognise and combine a surrogate pair |
| `Utf8Bits.DecoderBits` | contrib/spdlog/include/spdlog/fmt/bundled/format.h:463-467 | so are those that gather the code point |
| `Utf8Bits.ErrorBits` | contrib/spdlog/include/spdlog/fmt/bundled/format.h:476-481 | and the exclusive or on the top bits of the continuation bytes |
| `CircularQueue.Ring.constructor` | contrib/spdlog/include/spdlog/details/circular_q.h:27-30 | an empty queue of the given capacity, with one slot more |
| `CircularQueue.Ring.PushBack` | contrib/spdlog/include/spdlog/details/circular_q.h:49-62 | the item goes to the end; when full the oldest is dropped and counted; a disabled queue ignores it |
| `CircularQueue.StoredIsPushed` | contrib/spdlog/include/spdlog/details/circular_q.h:49-62 | storing at the tail and moving the indexes is that push on the sequence of items, for every head, tail and size |
| `CircularQueue.PushKeepsOrder` | contrib/spdlog/include/spdlog/details/circular_q.h:49-62 | what is dropped followed by what is kept is everything, in order |
| `CircularQueue.Ring.Front` | contrib/spdlog/include/spdlog/details/circular_q.h:66-74 | the oldest item |
| `CircularQueue.Ring.Size` | contrib/spdlog/include/spdlog/details/circular_q.h:77-87 | the number of items, also when they wrap around |
| `CircularQueue.Ring.At` | contrib/spdlog/include/spdlog/details/circular_q.h:91-95 | the i-th oldest item |
| `CircularQueue.Ring.PopFront` | contrib/spdlog/include/spdlog/details/circular_q.h:99-102 | only the oldest item goes |
| `CircularQueue.Ring.Empty` | contrib/spdlog/include/spdlog/details/circular_q.h:104-107 | empty exactly when there are no items |
| `CircularQueue.Ring.Full` | contrib/spdlog/include/spdlog/details/circular_q.h:109-117 | full exactly when the capacity is used up, and never when disabled |
| `CircularQueue.Ring.CopyMoveable` | contrib/spdlog/include/spdlog/details/circular_q.h:126-138 | takes over items and counter; the other queue is left empty and disabled |
| `BlockingQueue.Queue.Enqueue` | contrib/spdlog/include/spdlog/details/mpmc_blocking_q.h:32-40 | a caller that must wait changes nothing; otherwise the item is appended and nothing is dropped |
| `BlockingQueue.Queue.EnqueueNowait` | contrib/spdlog/include/spdlog/details/mpmc_blocking_q.h:43-50 | always appended; the oldest is dropped and counted when full |
| `BlockingQueue.Queue.DequeueFor` | contrib/spdlog/include/spdlog/details/mpmc_blocking_q.h:54-67 | the oldest item, or nothing, and that only if the queue is still empty |
| `ThreadPool.CreateInv` | contrib/spdlog/include/spdlog/details/thread_pool-inl.h:16-31 | 1 to 1000 threads, otherwise an error; a new pool has the given capacity, an empty queue and only idle workers, and satisfies the invariant |
| `ThreadPool.StepKeepsInv` | contrib/spdlog/include/spdlog/details/thread_pool-inl.h:38-126 | every step of every poster, worker and of the destructor keeps the invariant |
| `ThreadPool.Conservation` | contrib/spdlog/include/spdlog/details/thread_pool-inl.h:76-126 | over every interleaving: what the steps posted leaves in that order, and each message is queued, overrun, taken as a terminate, held by a worker or processed once; the counters agree |
| `ThreadPool.BlockingDropsNothing` | contrib/spdlog/include/spdlog/details/thread_pool-inl.h:76-86 | with the blocking policy alone nothing is ever overrun |
| `ThreadPool.StoppedMeansDrained` | contrib/spdlog/include/spdlog/details/thread_pool-inl.h:38-53 | when all workers have stopped, each took exactly one terminate, none was overrun, everything taken was processed, and without late posts the queue is empty |
| `ThreadPool.JoinedPool` | contrib/spdlog/include/spdlog/details/thread_pool-inl.h:38-53 | the same for the whole life of a pool, from construction to the joined destructor |
| `ThreadPool.DestructorFinishes` | contrib/spdlog/include/spdlog/details/thread_pool-inl.h:38-53 | with some capacity and no terminate overrun a closing pool always has a step to take, whatever else was posted late, and each such step brings the end nearer |
| `ThreadPool.ClosingEnds` | contrib/spdlog/include/spdlog/details/thread_pool-inl.h:38-53 | so the steps left are bounded in number, whichever are taken; when none is left the pool is joined if and only if it had room and had overrun no terminate, and without late posts its queue is empty |
| `ThreadPool.NoCapacityNeverJoins` | contrib/spdlog/include/spdlog/details/thread_pool-inl.h:42-45 | with capacity 0 the destructor's first post waits for ever, over every run from every state reached |
| `ThreadPool.DroppedExactly` | contrib/spdlog/include/spdlog/details/thread_pool-inl.h:76-86 | a step overruns a terminate if and only if it is a post that does not wait, on a full queue whose oldest message is a terminate |
| `ThreadPool.CanBeJoinedIff` | contrib/spdlog/include/spdlog/details/thread_pool-inl.h:38-86 | from construction on: after a run there is a way to go on that ends with the joined destructor if and only if the queue has room and the run held no such post |
| `ThreadPool.JoinableIff` | contrib/spdlog/include/spdlog/details/thread_pool-inl.h:38-53 | the same from every state that satisfies the invariant |
| `ThreadPool.StrandedForEver` | contrib/spdlog/include/spdlog/details/thread_pool-inl.h:38-53 | without room, or once a terminate has been overrun, the destructor never finishes, whatever happens |
| `ThreadPool.LatePostCanStrand` | contrib/spdlog/include/spdlog/details/thread_pool-inl.h:76-86 | one late post with the overrun policy is enough for that |
| `ThreadPool.Core.PostAsyncMsg` | contrib/spdlog/include/spdlog/details/thread_pool-inl.h:76-86 | the code's post is the step of the model, on the real queue |
| `ThreadPool.Core.ProcessNextMsg` | contrib/spdlog/include/spdlog/details/thread_pool-inl.h:96-126 | takes one message if there is one; inactive exactly after a terminate |
| `ThreadPool.Core.WorkerLoop` | contrib/spdlog/include/spdlog/details/thread_pool-inl.h:88-91 | a worker alone handles the messages before the first terminate, in order, and takes that one |
| `Rotation.SplitIsExact` | contrib/spdlog/include/spdlog/details/file_helper-inl.h:124-144 | an extension is split off if and only if there is one, and the two parts make up the name |
| `Rotation.NumberedName` | contrib/spdlog/include/spdlog/sinks/rotating_file_sink-inl.h:44-54 | the number, with a dot before it, stands in front of the extension, or at the end if there is none; the base file keeps its name |
| `Rotation.CalcFilenameInjective` | contrib/spdlog/include/spdlog/sinks/rotating_file_sink-inl.h:44-54 | different indexes give different names, with or without extension |
| `Rotation.ShiftUpFiles` | contrib/spdlog/include/spdlog/sinks/rotating_file_sink-inl.h:94-115 | the renames move every file up by one, gaps too; the last file stays if there is none to move there |
| `Rotation.ShiftUpKeepsOthers` | contrib/spdlog/include/spdlog/sinks/rotating_file_sink-inl.h:94-115 | files with other names are not touched |
| `Rotation.LogAllKeeps` | contrib/spdlog/include/spdlog/sinks/rotating_file_sink-inl.h:64-117 | whatever is logged while renames succeed: whole messages, the newest ones in order, each file within the limit or a single message, and the size known |
| `Rotation.RotatedFilesAreASuffix` | contrib/spdlog/include/spdlog/sinks/rotating_file_sink-inl.h:64-117 | from an empty directory the files read oldest first are the end of everything logged, cut at a message; all of it until the last file is used |
| `Rotation.FoundKept` | contrib/spdlog/include/spdlog/sinks/rotating_file_sink-inl.h:27-40 | a file that was there before counts as one message |
| `Rotation.RotatedOnOpenKept` | contrib/spdlog/include/spdlog/sinks/rotating_file_sink-inl.h:35-38 | rotating on open keeps the law, but the size is then only an upper bound |
| `Rotation.LoggedSizeExact` | contrib/spdlog/include/spdlog/sinks/rotating_file_sink-inl.h:64-75 | after one message the size is exact if and only if it was before or the message rotated the files |
| `Rotation.OpenedSizeExact` | contrib/spdlog/include/spdlog/sinks/rotating_file_sink-inl.h:27-75 | over every run after opening the size is exact if and only if nothing was rotated away on open or some message has rotated since |
| `Rotation.LogAllKeepsOthers` | contrib/spdlog/include/spdlog/sinks/rotating_file_sink-inl.h:64-117 | no file whose name does not belong to the log changes, over any run |
| `Rotation.RotatingFileSink.constructor` | contrib/spdlog/include/spdlog/sinks/rotating_file_sink-inl.h:27-40 | the size remembered is the base file's if and only if nothing was rotated away on open |
| `Rotation.RotatingFileSink.RenameFile` | contrib/spdlog/include/spdlog/sinks/rotating_file_sink-inl.h:123-128 | the source moves over the target, or at most the target is deleted |
| `Rotation.RotatingFileSink.Rotate` | contrib/spdlog/include/spdlog/sinks/rotating_file_sink-inl.h:89-117 | a whole rotation, or an exception after two failed renames, with the base file emptied and what the other files can then hold |
| `Rotation.RotatingFileSink.SinkIt` | contrib/spdlog/include/spdlog/sinks/rotating_file_sink-inl.h:64-75 | the message is logged as in the model, or lost with an exception; afterwards the size is exact if and only if it was before or the message called for a rotation; other files are not touched |
| `Client.StepKeepsInv` | src/rpc/client/client.cpp:34-209 | every step of callers and handlers keeps the invariant, and a start that succeeds always writes a request |
| `Client.RunKeepsInv` | src/rpc/client/client.cpp:34-209 | over every run; nothing that was called or written is taken back |
| `Client.ClientRuns` | src/rpc/client/client.cpp:34-209 | written requests followed by queued calls are the requests called with, in order; one operation is pending until the complete tag, and until a failure the outstanding flag means a pending write |
| `Client.BrokenCallFinishes` | src/rpc/client/client.cpp:116-189 | a start, read or write that failed leaves only the complete tag awaited, and nothing is taken or written |
| `Client.EndsExactly` | src/rpc/client/client.cpp:116-209 | no other step fails the call, and exactly the complete tag completes it |
| `Client.FailedIff` | src/rpc/client/client.cpp:116-189 | over every run: the call has failed if and only if some start, read or write was delivered as failed |
| `Client.NothingAfterFailure` | src/rpc/client/client.cpp:116-189 | whatever comes after a failure, nothing more is written, and only the complete tag is awaited until it is delivered |
| `Client.OneRequestPerAnswer` | src/rpc/client/client.cpp:136-189 | over every run: each request but the first takes a response of its own before it is written |
| `Client.QueuedCallsAreWritten` | src/rpc/client/client.cpp:136-189 | over runs with further calls in between: after 2k successful deliveries, or one fewer when no write is pending, the first k queued calls are written |
| `Client.StreamClient.EnqueueCall` | src/rpc/client/client.cpp:36-39 | the first half of a call is one step of the model |
| `Client.StreamClient.StartOnce` | src/rpc/client/client.cpp:41-45 | so is the second half: only the first caller starts the stream |
| `Client.StreamClient.MakeOneRequest` | src/rpc/client/client.cpp:225-253 | takes the oldest queued call unless a write is outstanding |
| `Client.StreamClient.HandleStart` | src/rpc/client/client.cpp:116-134 | what the handler of the start tag does |
| `Client.StreamClient.HandleRead` | src/rpc/client/client.cpp:136-170 | what the handler of the read tag does |
| `Client.StreamClient.HandleWrite` | src/rpc/client/client.cpp:172-189 | what the handler of the write tag does |
| `Client.StreamClient.Process` | src/rpc/client/client.cpp:55-96 | handling a delivered tag is one step of the model |
| `Server.StepKeepsInv` | src/rpc/server/server.cpp:138-173 | every step of reader and writer, piecewise copying included, keeps the invariant |
| `Server.SnapshotsAreWhole` | src/rpc/server/server.cpp:152-173 | over every interleaving each snapshot served is one whole accepted request, never an older one than before, and equals the last request while nothing is flagged or on its way |
| `Server.EveryLookIsServed` | src/rpc/server/server.cpp:153-194 | over every interleaving: each look at the flag leads to one snapshot served, in order, told as a change exactly if the look found one |
| `Server.StaysAwake` | src/rpc/server/server.cpp:153-194 | once awake the writer never sleeps again |
| `Server.AcceptedExactly` | src/rpc/server/server.cpp:280-298 | a request is accepted exactly if its period or its number of sports differs from the last one's; other sports of the same number are not noticed |
| `Server.WriterCatchesUp` | src/rpc/server/server.cpp:152-173 | one round of an awake writer brings the newest request into the snapshot |
| `Server.WakeUpCanBeLost` | src/rpc/server/server.cpp:140-150 | flag and notification of a first request can fall between the writer's look and its sleep, which leaves it asleep with the change flagged |
| `Server.GetsStuckExactly` | src/rpc/server/server.cpp:140-150 | in every reachable state: the writer comes to sleep on a flagged change by the notification that falls between its look and its sleep, and by no other step |
| `Server.StaysStuckUntilFlagged` | src/rpc/server/server.cpp:248-252 | it stays so until another accepted request is flagged, and by no other step does it end |
| `Server.StuckExactly` | src/rpc/server/server.cpp:248-252 | over every run: it sleeps on a flagged change with no notification on its way exactly when the last notification fell between its look and its sleep |
| `Server.CheckedExactly` | src/rpc/server/server.cpp:280-298 | in the step model: under the lock a received request is stored whole and to be flagged exactly in that case; otherwise everything is left as it was |
| `Server.Handshake.CheckRequest` | src/rpc/server/server.cpp:280-298 | accepted exactly if period or number of sports differ, and stored then: the reader's steps under the lock |
| `Server.Handshake.HandleRead` | src/rpc/server/server.cpp:231-259 | the flag is raised exactly for accepted requests, as by the reader's steps, and only a read that succeeded is followed by another |
| `Server.Handshake.TakeSnapshot` | src/rpc/server/server.cpp:157-173 | the copy is the last request if a change was flagged, and the flag is cleared: the writer's steps up to its use of the snapshot |
| `DeltaCache.CacheIsHistory` | src/lines/provider/lines_provider.cpp:121-173 | what the cache holds for a line after any interleaving of updates and fetches |
| `DeltaCache.Telescopes` | src/lines/provider/lines_provider.cpp:141-173 | the changes handed out for a line add up to the difference of the scores sent last |
| `DeltaCache.HandedIsScore` | src/lines/provider/lines_provider.cpp:141-173 | from the start they add up to the score at the latest incremental fetch, 0 if there was none |
| `DeltaCache.FetchDisturbs` | src/lines/provider/lines_provider.cpp:152-168 | full fetches change nothing, and incremental ones no other line |
| `DeltaCache.ReadyIff` | src/lines/provider/lines_provider.cpp:25-40 | ready exactly if there are lines and each was updated again after insertion |
| `DeltaCache.StaysReady` | src/lines/provider/lines_provider.cpp:25-40 | only a new line ends being ready |
| `DeltaCache.TurnsAreSteps` | src/lines/provider/lines_provider.cpp:141-173 | a fetch with others' steps between its lines is its steps among theirs |
| `DeltaCache.ReturnedIsHanded` | src/lines/provider/lines_provider.cpp:141-173 | a line that is not repeated in a request is returned all that was handed out for it |
| `DeltaCache.ReturnedIsLastTurn` | src/lines/provider/lines_provider.cpp:147-168 | with others' steps in between: a request returns what the last turn of a line hands out, and not what its earlier turns did |
| `DeltaCache.ReturnedIsScore` | src/lines/provider/lines_provider.cpp:141-173 | with others' steps in between: exactly the lines asked for and updated before their last turn are returned, each with its score at that turn, or with that less its score at the latest incremental fetch |
| `DeltaCache.FullFetchIsScores` | src/lines/provider/lines_provider.cpp:141-173 | a full fetch that nothing interrupts returns exactly the lines asked for that were ever updated, each with its score |
| `DeltaCache.TurnsTelescope` | src/lines/provider/lines_provider.cpp:141-173 | while no one else takes changes of a line, what the turns of one request hand out for it is the difference of the scores sent before and after |
| `DeltaCache.RepeatedLineAmongUpdates` | src/lines/provider/lines_provider.cpp:147-168 | then a line is returned all that was handed out for it if and only if, before its last turn, the score sent is still the one sent before the request |
| `DeltaCache.RepeatedLineLosesChange` | src/lines/provider/lines_provider.cpp:147-168 | a request nothing interrupts gets the whole change of a line if and only if the line is not repeated or there is no change |
| `DeltaCache.RepeatedLineExample` | src/lines/provider/lines_provider.cpp:147-168 | a first score that is never returned |
| `DeltaCache.LinesCache.UpdateCache` | src/lines/provider/lines_provider.cpp:121-139 | insertion leaves a line uninitialised, a later update initialises it |
| `DeltaCache.LinesCache.FetchDelta` | src/lines/provider/lines_provider.cpp:141-173 | the loop over the lines is the fetch of the model |
| `DeltaCache.LinesCache.State` | src/lines/provider/lines_provider.cpp:25-40 | counting the initialised lines decides readiness |

## Left out

- Dragon4.FallbackFormat: requires the value to be below 10^(exp10+1); the callers' estimate of the exponent (format-inl.h, lines 2332-2385) is not modelled, so for the shortest digits the room for rounding up is a precondition too.
- BigIntegers.Bigint.AssignPow10: powers from 2^30 on are excluded, where doubling the `int` bit mask overflows in the code.
- BigIntegers.Bigint.Square: numbers of 2^30 bigits and more are excluded, as twice their count overflows the code's `int` (line 543).
- Exponents and lengths of big integers are unbounded; the capacity of the fixed buffers is only modelled where the code relies on it (`WriteIntLocalized`, `GrisuGenDigits`, the seven bytes of the UTF-8 tail).
- Tables of powers of ten and the switch over them are the mathematical power; the rest of Dragonbox and the cached powers that feed the fast path are not modelled.
- FormatScan.ParseFormatString: what the handler answers is an arbitrary function of what it was told so far, with adjacent text merged; the parsing of specifiers is the handler's. Template arguments and compile-time checks are not modelled.
- FormatScan.ParseReplacementField: the shortcut for an empty field is folded into the automatic argument reference, which delivers the same events.
- Grouping.WriteIntLocalized: padding of the result and the lookup of the locale are not modelled.
- Utf8.ForEachCodepoint: the callback is modelled as the sequence of what it is given; the display width computed from it is left out.
- Bytes and code points are integers, with bit fields as quotients and remainders; the module Utf8Bits relates the two.
- CircularQueue.Ring.constructor: the wrap-around of the size for the largest capacity of the machine is not modelled.
- Moving items out of slots, destructors of items, and references returned into the queue are not modelled.
- ThreadPool.StepKeepsInv: time-outs of a waiting worker are no step, as they change nothing; condition variables are modelled by the conditions waited for, so a lost or spurious wake-up of the queue is not.
- Rotation.RotatingFileSink.SinkIt: buffering, failing writes and failing opens are not modelled; names are separated by `/` only.
- Client.StreamClient.Process: the logger, the response and its callback, cancellation and shutdown are not modelled; delivery by the completion queue is any order of events with any outcome.
- Server.StepKeepsInv: the outgoing stream, sleeping, the score callback and shutdown are not modelled; steps are sequentially consistent, and a sleeping writer does not wake up by itself.
- DeltaCache.LinesCache.FetchDelta: scores are reals; with rounding doubles the changes need not add up exactly.
- The database of lines, HTTP, configuration, the registry of loggers, other sinks, patterns and colours are wiring and not modelled.
