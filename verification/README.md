# A verified model of ravl's number printing, format strings, command line and request tracking

ravl is a library for remote attestation. This project models the parts of it and of the code compiled
into it whose correctness is not obvious from reading, and proves what they promise:

- **Printing floating-point numbers with exact integers** (fmt). `Bigint.dfy` is the base-2^32 number with an
  implicit exponent, updated in place; `BigitColumns.dfy`, `Convolution.dfy` and `Bigits.dfy` hold the column
  arithmetic behind its loops. `Dragon4.dfy` generates digits on top of it, both a requested number of digits
  (against "nearest, ties to even", `Rounding.dfy`, the rounding of section 4.3.1 of IEEE 754-2008) and the
  shortest ones (against `ShortestSpec.dfy`). `Grisu.dfy` does the same in 64-bit fixed point with an error bound.
- **Wide multiplications and divisibility** (fmt's Dragonbox kernels): `WideMul.dfy`, `TrailingZeros.dfy`.
- **Format strings** (fmt): `FormatStrings.dfy` says what a format string means, one character at a time;
  `FormatFields.dfy` reads off the text of a field what it prints.
  `Scanners.dfy` has the simple and the two-pass scanner, `FormatCompiler.dfy` the compiler into a tree of text and
  fields, `FormatExactness.dfy` the comparison of the two, `Buffers.dfy` the bounded output buffers.
- **The command line** (CLI11): `CommandLine.dfy` describes the parser as a function that logs what it does with
  every token; `CommandLineApp.dfy` is the parser in place; `CommandLineAccount.dfy` and `CommandLineBundles.dfy`
  prove what happens to the tokens, and `CommandLineOptions.dfy` which arguments an option takes. `IniList.dfy` is
  the quoting of lists in configuration files, `IniValues.dfy` what the values in them are read as.
- **Request sets that are fetched asynchronously** (ravl's own): `FetchTracker.dfy` is the state machine and its
  invariant over all runs, `HttpClientFetch.dfy` the tracker that updates its maps in place.
- **ISO week numbers** (fmt): `IsoWeek.dfy`.

Loops and fields that the source updates in place are methods and classes here, specified by functions of the old
state; code that is made of expressions is functions. Machine words are `uint32`/`uint64` types, so that every
operation that must not overflow is proved not to, and every one that wraps does so explicitly.

## What the code does not do

Some promises turned out not to hold everywhere. The model keeps what the code does, and the exact condition under
which the promise holds is proved:

- `compare` decides between *equal* numbers by the lengths of their digit vectors, so two equal numbers with different
  exponents can compare as different (`BigInteger.Compare`, `BigInteger.EqualNumbersOfDifferentLength`). On different
  numbers it is always right, and numbers with different exponents differ if the one with the lower exponent has a
  lowest digit that is not zero (`BigInteger.LowestBigitDecides`).
- The borrow loop of `subtract_aligned` stays at one position. `BigInteger.Bigint.SubtractAligned` says by how much
  the result is off, and when; `BigInteger.BorrowSettles` shows that this cannot happen if the number has at most one
  digit more than what is subtracted, which digit generation ensures.
- `divmod_assign` divides correctly except that it misses a quotient of one between equal numbers in the situation
  above (`BigInteger.Bigint.DivmodAssign`). Digit generation with a given number of digits is not affected, whatever
  the exponents: the significand is too small for the case to arise, and `Dragon4.FormatDragon` needs no condition
  on the denominator.
- Shortest digits: a decimal with fewer digits that rounds to the same number is passed over if and only if the
  significand is even, `Dragon4.TieSeen` is false of the exponents, and the lower boundary is such a decimal
  (`Dragon4.FormatDragon`, `Dragon4.ShortestMeaning`; `DragonExamples.BoundaryIsOverlooked` is one). An odd significand
  or a `TieSeen` that holds is the guard to check beforehand. Of the decimals with as many digits, the closest one is
  printed, with a like exception (`ShortestSpec.ResultIsClosest`). The first digit can become `:`, the character after
  9 (`DragonExamples.FirstDigitBecomesTen`); `Dragon4.FormatDragon` states exactly when, and
  `ShortestSpec.FirstDigitFits` a bound under which it cannot.
- The multiplication that replaces a division by 1000 is exact under the condition of `WideMul.DivideBy1000Exact`; the
  first number for which it fails lies above 2^63 (`WideMul.DivideBy1000Range`).
- The format compiler is less strict than the interpreter: it does not look at the character after a closing brace nor at
  the one that ends the specs, counts from zero in the specs of a field with an explicit index, and counts a field
  with a name known to it as an automatic one. `FormatExactness.CompilationIsExact` gives the exact condition on a
  string under which compiling makes no difference.
- Submitting a request set uses the number of live sets as its id, and fails exactly if a live set has this id
  (`HttpClientFetch.FetchTracker.SubmitSet`), as when an earlier set than a live one has completed
  (`FetchTracking.SubmitAfterCompletionFails`). The callback of an empty set is never made
  (`FetchTracking.CallbackExactlyOnce`).
- ISO weeks are right from year 0 on, and before that except in the last week of a year that begins or ends with a
  Thursday (`IsoWeeks.WeekIsThatOfThursday`, `IsoWeeks.YearBeforeZeroFails`).
- A list that is written as the last value of a configuration file is read as it was exactly if each element survives
  (`IniLists.FileReadBack`): a number must not begin with white space; another text must neither contain the quote
  that is put around it, nor end in a backslash, nor begin and end with the same quote; and none may contain `#`.

## Model

| member | source | states |
|---|---|---|
| BigInteger.Accumulator.Add | 3rdparty/fmt/format-inl.h:360-363 | the two words together grow by exactly the number added: the carry is never lost |
| BigInteger.Accumulator.AddTerms | 3rdparty/fmt/format-inl.h:568-579 | adds all products of digits whose positions sum up to the column |
| BigInteger.Accumulator.ShiftBigit | 3rdparty/fmt/format-inl.h:364-369 | the total is divided by 2^32 |
| BigInteger.Bigint.Assign | 3rdparty/fmt/format-inl.h:463-471 | the number has the value assigned, without leading zeros |
| BigInteger.Bigint.SubtractBigits | 3rdparty/fmt/format-inl.h:393-397 | one column of a subtraction: the new digit and the borrow account for the difference |
| BigInteger.Bigint.RemoveLeadingZeros | 3rdparty/fmt/format-inl.h:399-403 | the value stays and the number becomes top-normalized, or a single zero |
| BigInteger.Bigint.SubtractAligned | 3rdparty/fmt/format-inl.h:406-415 | the value goes down by the other's value, up to an error that is given exactly and occurs exactly if the borrow meets a zero above the other number |
| BigInteger.Bigint.Multiply32 | 3rdparty/fmt/format-inl.h:417-426 | the value is multiplied by the factor |
| BigInteger.Bigint.Multiply64 | 3rdparty/fmt/format-inl.h:428-443 | the value is multiplied by a two-word factor; no carry is lost |
| BigInteger.Bigint.ShiftLeft | 3rdparty/fmt/format-inl.h:477-490 | the value is multiplied by 2^shift; whole digits go into the exponent |
| BigInteger.Bigint.Square | 3rdparty/fmt/format-inl.h:558-585 | the value is squared by column sums, the accumulator ending at zero |
| BigInteger.Bigint.AssignPow10 | 3rdparty/fmt/format-inl.h:539-556 | the value is 10^e by square-and-multiply on 5 and one shift, and the exponent is e / 32 |
| BigInteger.Bigint.Align | 3rdparty/fmt/format-inl.h:589-598 | the exponents become equal and the value stays |
| BigInteger.Bigint.DivmodAssign | 3rdparty/fmt/format-inl.h:602-613 | Euclidean division on values, except exactly where an equal divisor of lower exponent is missed; says which exponent the remainder has |
| BigInteger.Compare | 3rdparty/fmt/format-inl.h:498-512 | the sign of the difference for different values; for equal ones the sign of the difference in lengths |
| BigInteger.AddCompare | 3rdparty/fmt/format-inl.h:515-536 | the sign of lhs1 + lhs2 - rhs for any exponents, early exits and borrow scan included |
| BigInteger.LowestBigitDecides | 3rdparty/fmt/format-inl.h:498-512 | numbers with different exponents differ if the lower one's lowest digit is not zero: then a tie cannot be missed |
| BigInteger.EqualNumbersOfDifferentLength | 3rdparty/fmt/format-inl.h:510-510 | two equal numbers for which the comparison answers "greater" |
| BigInteger.BorrowSettles | 3rdparty/fmt/format-inl.h:413-413 | a top-normalized number with at most one more digit never meets the stuck borrow |
| BigInteger.BorrowStallsOnce | 3rdparty/fmt/format-inl.h:413-413 | 2^64 - 1 is an instance of the stuck borrow |
| Convolution.ColumnsAreProduct | 3rdparty/fmt/format-inl.h:558-585 | the weighted column sums of two digit vectors are the product of their values |
| Rounding.NearestEvenUnique | 3rdparty/fmt/format-inl.h:2317-2336 | at most one number is the nearest one with ties to even: the specification of rounding determines the digits |
| Digits.PropagateCarry | 3rdparty/fmt/format-inl.h:2323-2331 | the value of the digit string with a ten in the last place, as proper digits; if it overflows, one is followed by zeros and a factor of ten goes to the exponent |
| Digits.AppendRounded | 3rdparty/fmt/format-inl.h:2319-2336 | the digits followed by the rounded last one, as proper digits |
| DragonNumbers.NeverPowerOfTen | 3rdparty/fmt/format-inl.h:2239-2250 | for 0 < f < 2^62 and e >= 32, no f * 2^e * 10^i is a power of ten: where the numerator is stored with an exponent, it never equals the denominator |
| DragonNumbers.NeverPowerOfTwo | 3rdparty/fmt/format-inl.h:2251-2271 | no multiple of a positive power of ten is a power of two: the same where the denominator is a power of two |
| Dragon4.Scale | 3rdparty/fmt/format-inl.h:2228-2272 | numerator / denominator is f * 2^e / 10^exp10, lower and upper are the distances to the boundaries, in all three branches |
| Dragon4.DivideDigit | 3rdparty/fmt/format-inl.h:2313-2313 | one digit is the exact quotient, at most 9, and the numerator becomes the remainder |
| Dragon4.LeadingDigits | 3rdparty/fmt/format-inl.h:2312-2316 | the digits and the numerator that is left account for the number exactly |
| Dragon4.FixedDigits | 3rdparty/fmt/format-inl.h:2311-2336 | the digits are the number rounded to the nearest, ties to even, through the chain of nines |
| Dragon4.NoDigitsAsked | 3rdparty/fmt/format-inl.h:2305-2310 | with no digits asked, 0 or 1 is the nearest-even rounding of the number in units of the next power of ten |
| Dragon4.Decide | 3rdparty/fmt/format-inl.h:2281-2283 | the two comparisons tell whether the digits so far, or one unit more, are within the rounding interval |
| Dragon4.ShortestDigits | 3rdparty/fmt/format-inl.h:2273-2302 | terminates at the first position where a decimal lies in the interval, with the specified result; all characters are digits exactly if the first one does not overflow |
| Dragon4.IntervalMeaning | 3rdparty/fmt/format-inl.h:2234-2283 | the scaled interval is the rounding interval of f * 2^e: halfway to the neighbours, or a quarter below where the lower one is closer |
| Dragon4.ShortestMeaning | 3rdparty/fmt/format-inl.h:2273-2302 | the decimal printed rounds to f * 2^e, and one with fewer digits does if and only if f is even, the tie is not seen, and the lower boundary is such a decimal |
| Dragon4.FormatDragon | 3rdparty/fmt/format-inl.h:2225-2337 | with a number of digits: f * 2^e / 10^exp10' rounded to nearest even, and what exp10' is; without: a decimal that rounds to f * 2^e, exactly when it is not the shortest one, and exactly when a character is no digit |
| ShortestSpec.ResultInInterval | 3rdparty/fmt/format-inl.h:2281-2292 | where generation stops, the result lies in the rounding interval, closed for even and open for odd significands |
| ShortestSpec.NothingShorter | 3rdparty/fmt/format-inl.h:2281-2301 | where generation goes on, a number with as many digits or fewer lies in the rounding interval if and only if it is the lower boundary of an even significand, and exponents keep it from being noticed |
| ShortestSpec.ShortestInInterval | 3rdparty/fmt/format-inl.h:2273-2302 | the digits emitted lie in the interval, and fewer digits would if and only if the significand is even, the tie is not seen, and the lower boundary has fewer digits |
| ShortestSpec.ResultIsClosest | 3rdparty/fmt/format-inl.h:2285-2293 | the result is the closest of the numbers with as many digits in the interval, and the even one of two, if and only if no nearer (or equally near and even) lower boundary goes unnoticed |
| ShortestSpec.FirstDigitRoundedUp | 3rdparty/fmt/format-inl.h:2284-2292 | the first digit is a nine that is incremented exactly under a condition on numerator, denominator and distances |
| ShortestSpec.FirstDigitFits | 3rdparty/fmt/format-inl.h:2286-2292 | if numerator + upper stays within ten denominators (strictly for even significands), the first digit is at most nine, also after rounding |
| DragonExamples.BoundaryIsOverlooked | 3rdparty/fmt/format-inl.h:2281-2281 | an even significand whose lower boundary 3584 is passed over |
| DragonExamples.FirstDigitBecomesTen | 3rdparty/fmt/format-inl.h:2286-2292 | an even significand just below 10^23 for which a nine is incremented |
| Grisu.GetRoundDirection | 3rdparty/fmt/format-inl.h:622-637 | down exactly if the whole error interval is at most half the divisor, up exactly if all of it is at least half; no operation overflows |
| Grisu.SafeForReals | 3rdparty/fmt/format-inl.h:688-690 | the integer statement of safety covers every real number within the error |
| Grisu.GenDigitsHandler.OnDigit | 3rdparty/fmt/format-inl.h:654-685 | when done, the buffer and exponent hold the digits so far rounded in the direction that is safe, through the carry; an error exactly if the error has grown to the size of the remainder (half the divisor for integral digits), or neither direction is safe |
| Grisu.IntegralDigits | 3rdparty/fmt/format-inl.h:725-775 | the integral part fits 32 bits and has at most ten digits; when done as many digits are delivered as asked and they are safe, on an error neither direction was safe at the last one, and otherwise digits and rest account for the number |
| Grisu.FractionalDigits | 3rdparty/fmt/format-inl.h:776-785 | digits of the fraction with the error growing tenfold, until they are safe or the position is reached at which they cannot become so; no product overflows |
| Grisu.GrisuGenDigits | 3rdparty/fmt/format-inl.h:691-786 | when done, all digits asked for are there and within half a unit of every real within the error of the value; it gives up only where the error has reached the remainder or neither direction is safe, and then exponent and digits so far add up to the number of integral digits |
| WideMul.Multiply | 3rdparty/fmt/format-inl.h:313-320 | the 32-bit halves give the product divided by 2^64, rounded half up |
| WideMul.MultiplyPathsAgree | 3rdparty/fmt/format-inl.h:307-322 | the 128-bit path and the path by halves agree on all inputs |
| WideMul.Uint128.Add | 3rdparty/fmt/format-inl.h:821-832 | addition with carry, modulo 2^128 |
| WideMul.Umul128 | 3rdparty/fmt/format-inl.h:839-864 | the full 128-bit product |
| WideMul.Umul128Upper64 | 3rdparty/fmt/format-inl.h:867-876 | the product divided by 2^64 |
| WideMul.Umul192Upper64 | 3rdparty/fmt/format-inl.h:880-884 | the upper 64 bits of the 192-bit product |
| WideMul.Umul192Middle64 | 3rdparty/fmt/format-inl.h:894-898 | the middle 64 bits of the 192-bit product |
| WideMul.DivideBy1000Exact | 3rdparty/fmt/format-inl.h:1040-1042 | equals n / 1000 if and only if a bound on quotient and remainder holds |
| WideMul.DivideBy1000Range | 3rdparty/fmt/format-inl.h:1040-1042 | exact for all n below 15534100272597517999, hence below 2^63, and wrong there |
| TrailingZeros.MultiplyAndCompare | 3rdparty/fmt/format-inl.h:971-971 | for d with inverse m modulo w: x * m mod w is at most (w - 1) / d if and only if d divides x, and then it is the quotient |
| TrailingZeros.Rows32 | 3rdparty/fmt/format-inl.h:964-970 | every row holds the inverse of 5^k and the largest quotient |
| TrailingZeros.Rows64 | 3rdparty/fmt/format-inl.h:975-999 | every row holds the inverse of 5^k and the largest quotient |
| TrailingZeros.DivisibleByPowerOf5Short | 3rdparty/fmt/format-inl.h:962-972 | true exactly for the multiples of 5^exp |
| TrailingZeros.DivisibleByPowerOf5 | 3rdparty/fmt/format-inl.h:973-1001 | true exactly for the multiples of 5^exp |
| TrailingZeros.RemoveTrailingZerosShort | 3rdparty/fmt/format-inl.h:1928-1953 | n is the result times 10^s, and the result is no multiple of ten unless s is the cap |
| TrailingZeros.RemoveTrailingZeros | 3rdparty/fmt/format-inl.h:1956-2038 | the same through the branch for 10^8 and the chain on quotient and remainder |
| FormatStrings.ParseNonnegativeInt | 3rdparty/fmt/core.h:2276-2296 | the value of up to ten digits if it fits an int, or else the error value, although the loop wraps around; leading zeros count as digits |
| FormatStrings.IndexIsClamped | 3rdparty/fmt/core.h:2348-2354 | for an argument index, which does not begin with a zero, this is the index or the largest int |
| FormatStrings.ReadArgId | 3rdparty/fmt/core.h:2344-2380 | the loops read the reference that the text has at this place: automatic, by index, by name, or an error |
| FormatStrings.FormatHandler.OnArgId | 3rdparty/fmt/format.h:2948-2958 | the index an argument reference stands for, or the error of mixing automatic and manual indices |
| FormatStrings.FormatHandler.OnSpecRefs | 3rdparty/fmt/format.h:2977-2980 | the references in specs, taken one by one, give the indices that they stand for in this order, or the first error |
| FormatStrings.FormatHandler.OnFormatSpecs | 3rdparty/fmt/format.h:2968-2986 | reading specs, references, closing brace and output in turn, a field adds its output and advances the indices, or has the first of these errors |
| Scanners.ParseReplacementField | 3rdparty/fmt/core.h:2572-2609 | a field or an escaped brace has the effect that the reading character by character gives it |
| Scanners.ScanShort | 3rdparty/fmt/core.h:2619-2636 | the simple loop has the outcome of the reading character by character: same text, fields in the same order, same first error |
| Scanners.ScanLong | 3rdparty/fmt/core.h:2637-2661 | so does the two-pass scanner, for strings of every length |
| Scanners.ParseFormatString | 3rdparty/fmt/core.h:2612-2662 | whichever scanner the length selects, the outcome is the same |
| Scanners.VformatTo | 3rdparty/fmt/format.h:2909-2989 | the shortcut for "{}" prints what scanning prints |
| Scanners.EscapeRoundTrip | 3rdparty/fmt/core.h:2624-2631 | a text whose braces are doubled prints as itself |
| Scanners.PlainStretch | 3rdparty/fmt/core.h:2619-2636 | text without braces prints as it is |
| FormatFields.FieldPrints | 3rdparty/fmt/core.h:2588-2599 | wherever a field "{" reference "}" stands, it prints the argument that its decimal index, its name or the next automatic index refers to, and nothing else; reading goes on behind it |
| FormatFields.FieldWithSpecsPrints | 3rdparty/fmt/core.h:2600-2603 | with specs, it prints what the formatter makes of the text between colon and closing brace, and of the arguments to which the references in it lead |
| FormatFields.IndexPrints | 3rdparty/fmt/core.h:2344-2360 | "{d}" prints exactly argument d, counted from zero, for every decimal number d of an argument |
| FormatFields.NamePrints | 3rdparty/fmt/core.h:2361-2371 | "{name}" prints exactly the argument with this name, all characters of it |
| FormatFields.EmptyFieldsCount | 3rdparty/fmt/core.h:2590-2591 | n fields "{}" print the first n arguments in order |
| FormatFields.FieldFails | 3rdparty/fmt/format.h:2948-2966 | an automatic index after an explicit one, the reverse, and a reference to no argument are these errors |
| FormatFields.SpecsFail | 3rdparty/fmt/format.h:2968-2986 | specs that are not understood, not closed or not fit for the argument are errors |
| FormatFields.BrokenFieldFails | 3rdparty/fmt/core.h:2595-2606 | a reference that neither a brace nor a colon ends is an error |
| FormatFields.OpenBraceFails | 3rdparty/fmt/core.h:2588-2606 | so is an opening brace at the end, or before a character that begins no reference |
| FormatFields.CloseBrace | 3rdparty/fmt/core.h:2628-2632 | two closing braces print one, and any other is an error |
| FormatFields.OtherText | 3rdparty/fmt/core.h:2619-2636 | two opening braces print one, and any character but a brace prints itself |
| FormatCompiler.ParseText | 3rdparty/fmt/compile.h:343-348 | finds the first brace, or the end |
| FormatCompiler.CompilesWhatItReads | 3rdparty/fmt/compile.h:429-533 | a string compiles if and only if the compiler's less strict reading, one character or field at a time, succeeds, and the tree has the parts that were read |
| FormatCompiler.EvalShowsLeaves | 3rdparty/fmt/compile.h:214-327 | evaluating the tree shows its leaves from left to right, or fails with the first that cannot be shown |
| FormatExactness.SafeAgrees | 3rdparty/fmt/compile.h:452-518 | from any position and any pair of counters, a string that is safe prints the same interpreted and compiled, or fails in both |
| FormatExactness.AgreeIsSafe | 3rdparty/fmt/compile.h:452-518 | from any position and any pair of counters, where both print the same, the string is safe |
| FormatExactness.CompilationIsExact | 3rdparty/fmt/compile.h:429-533 | unless both fail, the compiled string prints what the interpreted one does if and only if the string is safe to compile: braces doubled and fields closed, no automatic index in specs under manual indexing, no index after a name known to the compiler unless indexing was manual, no specs for other names |
| FormatExactness.FormattingIsExact | 3rdparty/fmt/compile.h:556-583 | the same for formatting that falls back on the interpreter when the compiler gives up |
| FormatExactness.CompilationPreservesMeaning | 3rdparty/fmt/compile.h:429-533 | in particular every string that the interpreter accepts and that names no argument compiles, and prints the same for all arguments |
| FormatExactness.UnmatchedCloseCompiles | 3rdparty/fmt/compile.h:504-507 | a closing brace and any other character: an error at run time, a brace when compiled |
| FormatExactness.NamedFieldShiftsIndex | 3rdparty/fmt/compile.h:484-492 | after a named field the compiled string refers to another argument |
| FormatExactness.ManualSpecsCompile | 3rdparty/fmt/compile.h:377-385 | "{0:{}}": an error at run time, argument 0 when compiled |
| FormatExactness.UnclosedSpecsCompile | 3rdparty/fmt/compile.h:377-385 | "{:dx": an error at run time, a field when compiled |
| Buffers.FixedBufferTraits.Limit | 3rdparty/fmt/core.h:881-885 | how much of a flush is still within the limit |
| Buffers.PointerBuffer.PushBack | 3rdparty/fmt/core.h:848-851 | what was pushed grows by one character and the memory holds the first ones, across the switch to the scratch array |
| Buffers.PointerBuffer.Out | 3rdparty/fmt/core.h:957-960 | the memory holds exactly the first min(n, L) characters and is unchanged behind them |
| Buffers.PointerBuffer.Count | 3rdparty/fmt/core.h:961-963 | the number of all characters pushed |
| Buffers.IteratorBuffer.Out | 3rdparty/fmt/core.h:913-916 | the iterator has received the first min(n, L) characters |
| Buffers.IteratorBuffer.Count | 3rdparty/fmt/core.h:917-917 | the number of all characters pushed |
| Buffers.CountingBuffer.Count | 3rdparty/fmt/core.h:1018-1018 | the number of all characters pushed |
| Buffers.FormatToN | 3rdparty/fmt/core.h:3160-3166 | whatever is written, memory gets the first n characters, nothing beyond is touched, and the full length is reported |
| CommandLine.ParseSingleShrinks | 3rdparty/CLI11/CLI11.hpp:8283-8323 | every step makes the sum of token lengths plus one smaller, although the rest of a bundle is pushed back |
| CommandLine.FindOption | 3rdparty/CLI11/CLI11.hpp:8547-8554 | the first option that goes by the name, if there is one |
| CommandLineAccount.EveryTokenAccountedFor | 3rdparty/CLI11/CLI11.hpp:8169-8183 | after a parse the log of what was done undoes itself, step by step, into the command line: each token went to an option that it names or follows, to a positional option, was a swallowed mark, or is missing and no option has its name; each rest of a bundle was pushed back, and was the next token that was used |
| CommandLineAccount.ParseSingleExplained | 3rdparty/CLI11/CLI11.hpp:8283-8323 | each step keeps the account of the tokens |
| CommandLineAccount.ParsePositionalExplained | 3rdparty/CLI11/CLI11.hpp:8347-8469 | a positional step keeps the account, the prefix-command loop included |
| CommandLineAccount.ParseOptionExplained | 3rdparty/CLI11/CLI11.hpp:8583-8687 | an option takes only its own token and the arguments after it, and pushes back only the rest of its bundle |
| CommandLineAccount.MissingKeepOrder | 3rdparty/CLI11/CLI11.hpp:8769-8783 | in every parse the missing tokens, or rests of bundles, come from different tokens of the command line, in its order |
| CommandLineBundles.ParseSame | 3rdparty/CLI11/CLI11.hpp:8169-8183 | the rest of a run depends only on what is left and on what the options have got |
| CommandLineBundles.BundleMeansSeparateFlags | 3rdparty/CLI11/CLI11.hpp:8682-8686 | "-abc" gives the same results, missing tokens and order as "-a -b -c", whatever is around it |
| CommandLineOptions.TokenKinds | 3rdparty/CLI11/CLI11.hpp:7819-7842 | from its first characters alone: exactly which tokens are the mark, a long or short option, or one in the style of Windows; a dash and a digit name no option unless one has that name |
| CommandLineOptions.LongParts | 3rdparty/CLI11/CLI11.hpp:2528-2541 | "--name=value" and "--name" are taken apart into name and value |
| CommandLineOptions.ShortParts | 3rdparty/CLI11/CLI11.hpp:2519-2526 | "-crest" is taken apart into its flag and the rest |
| CommandLineOptions.WindowsParts | 3rdparty/CLI11/CLI11.hpp:2543-2556 | "/name:value" and "/name" are taken apart into name and value |
| CommandLineOptions.NamedStep | 3rdparty/CLI11/CLI11.hpp:8547-8581 | a token that looks like an option is for the first option that goes by its long, short or either name, and is missing if there is none |
| CommandLineOptions.Limits | 3rdparty/CLI11/CLI11.hpp:8597-8604 | the numbers of arguments in terms of type sizes and expected numbers: at least one type, unless none is expected; at most type size times expected maximum, with the cap for containers |
| CommandLineOptions.OptionRefuses | 3rdparty/CLI11/CLI11.hpp:8609-8637 | a flag that refuses its value fails, and an option for which all arguments that are left are not enough |
| CommandLineOptions.OptionTakes | 3rdparty/CLI11/CLI11.hpp:8583-8687 | any other option takes the arguments that it needs and as many more as it may, and its exact outcome: what it logs, what it leaves, when a mark is swallowed, the value without arguments, the incomplete last value |
| CommandLineOptions.ArgumentsTaken | 3rdparty/CLI11/CLI11.hpp:8597-8661 | without extra arguments it takes one only as long as it has less than type size times expected maximum; it ends with a type's minimum at least; it stops only at the end, its limit, something that looks like an option, the arguments reserved for required positionals, or a refused value |
| CommandLineOptions.OneArgument | 3rdparty/CLI11/CLI11.hpp:8583-8687 | an option with exactly one argument takes the text that comes with its name, or else the next argument, and leaves everything behind it |
| CommandLineOptions.LongSpellings | 3rdparty/CLI11/CLI11.hpp:2528-2541 | "--name=text" and "--name text" give the option this text, no other option anything, and leave the same arguments |
| CommandLineOptions.ShortSpellings | 3rdparty/CLI11/CLI11.hpp:2519-2526 | so do "-ctext" and "-c text" |
| CommandLineOptions.FlagTakesNone | 3rdparty/CLI11/CLI11.hpp:8609-8613 | a flag takes no argument, gets what its name and value stand for, and leaves the rest of its bundle as the next token |
| CommandLineOptions.NothingRemains | 3rdparty/CLI11/CLI11.hpp:8325-8335 | no arguments remain to be given if and only if every positional option has its type size times its expected minimum |
| CommandLineOptions.OneRemainsLess | 3rdparty/CLI11/CLI11.hpp:8325-8335 | a result that a positional option lacked lowers the number of those that remain by one |
| CommandLineOptions.PositionalGoesTo | 3rdparty/CLI11/CLI11.hpp:8347-8469 | which option gets a positional argument, in terms of what the options lack and accept; with none it is missing, alone or with the whole command behind it, or an error |
| CommandLineOptions.PositionalSteps | 3rdparty/CLI11/CLI11.hpp:8283-8323 | behind "--" everything is positional, as it is behind a positional argument if those stand at the end |
| CommandLineApp.Parser.FindPositional | 3rdparty/CLI11/CLI11.hpp:8347-8418 | the loops find the option that the precedence of required options selects |
| CommandLineApp.Parser.CountRemainingPositionals | 3rdparty/CLI11/CLI11.hpp:8325-8335 | the number of arguments that positional options still lack |
| CommandLineApp.Parser.ParsePositionalArg | 3rdparty/CLI11/CLI11.hpp:8347-8469 | the lists change as the step says, or the same error is thrown |
| CommandLineApp.Parser.ParseNamedOption | 3rdparty/CLI11/CLI11.hpp:8583-8687 | the loops that gather arguments do what the step says, or throw the same error |
| CommandLineApp.Parser.ParseAll | 3rdparty/CLI11/CLI11.hpp:8169-8183 | the loop over all tokens ends, with the lists that the uses of the tokens give |
| CommandLineApp.ParseCommandLine | 3rdparty/CLI11/CLI11.hpp:8169-8183 | ends with the result of the functional parse; results, missing tokens and parse order are those of its log, which accounts for the whole command line |
| IniLists.FindAndReplace | 3rdparty/CLI11/CLI11.hpp:491-501 | all occurrences are replaced from left to right, and replacements are not searched again |
| IniLists.QuoteEnd | 3rdparty/CLI11/CLI11.hpp:558-562 | the first quote that no backslash precedes, and whether one was skipped |
| IniLists.SplitUp | 3rdparty/CLI11/CLI11.hpp:544-594 | the items of the text, one after the other |
| IniLists.IniJoin | 3rdparty/CLI11/CLI11.hpp:9021-9045 | the converted arguments with separators, in brackets if there are several |
| IniLists.QuotedOrBare | 3rdparty/CLI11/CLI11.hpp:8978-9019 | an argument is written bare exactly if it is a special word, a number or a literal with a base, and else within one kind of quote |
| IniLists.RoundTrip | 3rdparty/CLI11/CLI11.hpp:544-594 | splitting what was written gives back the list if and only if every element splits back |
| IniLists.ReadBack | 3rdparty/CLI11/CLI11.hpp:9212-9215 | splitting and taking off quotes gives back the list if and only if every element survives both |
| IniLists.PlainListsRoundTrip | 3rdparty/CLI11/CLI11.hpp:8978-9045 | all lists without quotes, backslashes and leading white space survive, empty strings, commas and inner spaces included |
| IniLists.ReadValue | 3rdparty/CLI11/CLI11.hpp:9180-9215 | the value of a line without its comment, joined with the lines that follow while it is open, split, and freed of quotes |
| IniLists.FileReadBack | 3rdparty/CLI11/CLI11.hpp:9180-9215 | the last value of a file is read as it was written if and only if every element survives and none contains the comment character |
| IniLists.WriteAndRead | 3rdparty/CLI11/CLI11.hpp:9021-9215 | the same for the code that writes and reads; with any lines following, if no element contains the comment character |
| IniValues.CommasSeparate | 3rdparty/CLI11/CLI11.hpp:9192-9193 | words and quoted texts (any quote, escaped by a backslash within) with commas between them, and any white space after these, are read as these texts |
| IniValues.SpacesSeparate | 3rdparty/CLI11/CLI11.hpp:9194-9195 | so are those with white space between them, if there is a space and no comma |
| IniValues.SingleValue | 3rdparty/CLI11/CLI11.hpp:9196-9198 | a value without comma, space and comment is one item, without its quotes |
| IniValues.BracketsAreTakenOff | 3rdparty/CLI11/CLI11.hpp:9186-9191 | a list of them in brackets, on one line or broken over several, is read as these texts; only the first line may have a comment |
| IniValues.BrokenListIsJoined | 3rdparty/CLI11/CLI11.hpp:9187-9190 | whatever is in a list, breaking it over several lines makes no difference, and no line behind it is looked at |
| IniValues.OpenListLosesLast | 3rdparty/CLI11/CLI11.hpp:9187-9191 | where the file ends within a list, its last character is lost |
| IniValues.CommentIsCut | 3rdparty/CLI11/CLI11.hpp:9181-9185 | a comment and the space before it make no difference |
| IniValues.WrittenAs | 3rdparty/CLI11/CLI11.hpp:8978-9019 | which argument is written bare, in single and in double quotes |
| IniValues.JoinedParts | 3rdparty/CLI11/CLI11.hpp:9021-9045 | the arguments of a list are written in order with a comma and a space between them |
| FetchTracking.SubmitKeepsInv | wasm/http_client_fetch.cpp:82-109 | a submission keeps the invariant |
| FetchTracking.SubmitFrame | wasm/http_client_fetch.cpp:82-109 | a submission changes no other live set and none of its fetches |
| FetchTracking.CompleteKeepsInv | wasm/http_client_fetch.cpp:130-196 | the reply to any outstanding fetch, in any order, keeps the invariant |
| FetchTracking.EraseKeepsInv | wasm/http_client_fetch.cpp:219-224 | erasing a set that is not pending keeps the invariant |
| FetchTracking.RunKeepsInv | wasm/http_client_fetch.cpp:82-224 | the invariant holds at every moment of every run |
| FetchTracking.CallbackExactlyOnce | wasm/http_client_fetch.cpp:188-195 | in every run, at every moment, the callback of a set has been made exactly once if there is one, the set has requests and is gone, and else not at all |
| FetchTracking.CallbackAtMostOnce | wasm/http_client_fetch.cpp:130-224 | in every run, whatever sets are erased and when, a callback has been made at most once, and not while its set is there |
| FetchTracking.NothingLeftBehind | wasm/http_client_fetch.cpp:188-195 | when no fetch is outstanding, every such callback has been made |
| FetchTracking.CallbackAnswers | wasm/http_client_fetch.cpp:188-195 | a callback passes on one answer for each request, in request order, none of them 429 |
| FetchTracking.OneFetchPerSlot | wasm/http_client_fetch.cpp:99-104 | every unanswered request has exactly one outstanding fetch, for its address, and an answered one none |
| FetchTracking.FiresWithLastAnswer | wasm/http_client_fetch.cpp:130-196 | the callback is made in the step that answers the last request, and in no other; a 429 keeps the request pending with a new fetch |
| FetchTracking.DenseIdsSubmit | wasm/http_client_fetch.cpp:87-97 | a submission succeeds while ids have no gaps |
| FetchTracking.SubmitAfterCompletionFails | wasm/http_client_fetch.cpp:87-97 | two submissions, one completion: the third submission fails |
| FetchTracking.StaleReplyAnswersLaterSet | wasm/http_client_fetch.cpp:130-224 | a set is erased while pending and the next one gets its id: the late reply becomes the answer to the later set |
| FetchTracking.EraseForgets | wasm/http_client_fetch.cpp:219-224 | an erased set is in neither map; other sets, their responses and all outstanding fetches stay |
| FetchTracking.ErasedIsNeverCalledBack | wasm/http_client_fetch.cpp:219-224 | in any run, an erased set's callback is made in no later step, whatever replies arrive |
| FetchTracking.LateReplyIsIgnored | wasm/http_client_fetch.cpp:130-196 | a reply for a set that is not there changes nothing but the outstanding fetches |
| FetchTracking.SubmitAdds | wasm/http_client_fetch.cpp:82-109 | exactly one set is added, with the number of live sets as its id, its requests and its callback; or nothing changes, if that id is taken |
| FetchTracking.SubmitFillsSlots | wasm/http_client_fetch.cpp:99-104 | each slot of the new set holds the handle of its fetch and an empty response |
| FetchTracking.SubmitFetches | wasm/http_client_fetch.cpp:99-104 | exactly one fetch for each request is started, for its address |
| FetchTracking.CompleteFrame | wasm/http_client_fetch.cpp:130-196 | a reply touches no set but its own and no fetch but its own, except that one new fetch may be started |
| HttpClientFetch.FetchTracker.StartFetches | wasm/http_client_fetch.cpp:99-104 | one fetch for each request, stored in its slot |
| HttpClientFetch.FetchTracker.SubmitSet | wasm/http_client_fetch.cpp:82-109 | the maps change as the submission step says and keep the invariant; says when it fails |
| HttpClientFetch.FetchTracker.MustRetry | wasm/http_client_fetch.cpp:111-128 | a 429 empties the response and asks for another try, nothing else does |
| HttpClientFetch.FetchTracker.IsComplete | wasm/http_client_fetch.cpp:198-217 | true exactly if the set is live and none of its fetches is left |
| HttpClientFetch.FetchTracker.CompleteFetch | wasm/http_client_fetch.cpp:130-196 | the maps change as the completion step says and keep the invariant |
| HttpClientFetch.FetchTracker.EraseSet | wasm/http_client_fetch.cpp:219-224 | the set and its responses are forgotten, pending or not; the invariant stays if it was not pending |
| IsoWeeks.WeeksAreThursdays | 3rdparty/fmt/chrono.h:1016-1025 | the formula counts the Thursdays of the year, from year -1 on |
| IsoWeeks.WeekNumOfThursday | 3rdparty/fmt/chrono.h:1026-1029 | the week number ranks the Thursday of the day's week within the year, and is below one if it lies before the year |
| IsoWeeks.WeekIsThatOfThursday | 3rdparty/fmt/chrono.h:1030-1043 | for every date, week year and week number are the year of the week's Thursday and its rank there (section 2.2.10 of ISO 8601:2004) if and only if the year is 0 or later, or the date is not in the last week of a year that begins or ends with a Thursday |
| IsoWeeks.YearsDoNotOverlap | 3rdparty/fmt/chrono.h:1030-1036 | a day lies in one year only, so that the week year is determined |
| IsoWeeks.NegativeYearsHave52Weeks | 3rdparty/fmt/chrono.h:1016-1025 | before year 0 the number is always 52, and right if and only if no Thursday begins or ends the year |
| IsoWeeks.YearBeforeZeroFails | 3rdparty/fmt/chrono.h:1037-1043 | 1 January of year -1 gets week 52 instead of 53 |

## Left out

- The fixed capacity of a bigint and the width of its size, exponent and quotient: these are unbounded here.
- BigInteger.Bigint.AssignPow10: requires e < 2^30, so that the bit mask and the number of digits stay in range; the source asserts only that e is not negative.
- BigInteger.Bigint.Square: models the two-word accumulator; with 128-bit integers the sums are the same.
- Dragon4.FormatDragon: requires a significand below 2^62 (that of a double has 53 bits) and that exp10 is the decimal exponent of the number or less than one too large, which its caller computes.
- Dragon4.ShortestDigits: appends to a buffer that grows, where the source writes into one that its caller has made large enough.
- Grisu.GrisuGenDigits: starts with an error of 1, the only one that the handler admits for integral digits; the number of integral digits is taken from its specification instead of a table.
- TrailingZeros.RemoveTrailingZeros: the cap is a parameter, the number of trailing zero bits is taken from its specification, and n / 10^8 is required to fit 32 bits as the source assumes.
- `format_float`, the extraction of bits from a floating-point number, the tables of powers and Dragonbox as a whole.
- FormatExactness.CompilationIsExact: tells two outputs apart by the arguments they show, also where formatters happen to print the same.
- What formatters print and how they read their specs: any functions of the argument, the text and the indices that the specs refer to. `buffer::append` is repeated `push_back`.
- The buffers without a limit, those of containers, and moving a buffer.
- The responses' headers are a map that is given with the reply; sleeping before a retry, threads and locks. The tracker's steps are atomic, as the source runs each under one lock.
- FetchTracking.EraseKeepsInv: for runs that erase a pending set only FetchTracking.CallbackAtMostOnce and FetchTracking.ErasedIsNeverCalledBack are stated; its fetches then report to nobody, or to a later set with the same id, as FetchTracking.StaleReplyAnswersLaterSet shows.
- HttpClientFetch.FetchTracker.CompleteFetch: a response list of the wrong size, which the source resizes, is treated like a missing one; the invariant excludes both.
- CommandLine.ParseSingleShrinks: applications without subcommands and option groups, and options whose callbacks do not run during parsing.
- What an option does with a text: the names it goes by, the values it accepts, what a flag stands for and into which results a text is taken apart are any functions. Sizes are unbounded except where the source checks a product.
- What happens after the tokens are read: configuration files, environment variables, validators, required options, and the error for missing tokens.
- IniLists.RoundTrip: numbers are recognized by any function that, after leading white space, accepts only texts without white space, commas and quotes. The default separators, brackets and quotes are used. Names and sections of configuration files are not part of this model.
- The years and days of the calendar are unbounded integers.
- The attestation formats, the C interface and the client over curl.
