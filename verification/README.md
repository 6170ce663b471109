# A verified model of the rc2 runtime

This project models the C runtime of the rc2 backend for Idris 2 and part of its support library, and
proves what the code promises about every input, every heap and every interleaving.

- **Decimal and binary conversion.** `Rounding` defines the nearest 53-bit float and shows it unique;
  `Decimal` and `DoubleParser` are the scanner and the exact big-integer parser, `Spelling` the ways to
  write a number, `DoubleTables` the table generator, `FastParse` the 128-bit fast path, `Layout` and
  `DoublePrinter` the printer. `CorrectRounding` says when the parsed datum is the one nearest to the text.
  Values are exact reals, a double is its sign, exponent field and fraction field, and `ldexp` is modelled
  with its overflow to infinity and its second rounding of subnormals.
- **Jumps.** `LinearSystem` is the algebra of polynomials over F2 acting on a linear state space, `F2x` the
  word arithmetic, and `Xoroshiro128PlusPlus` and `Xoroshiro64StarStar` the two generators. Nothing about
  their constants is assumed: `Xoroshiro128Map` and `Xoroshiro64Map` evaluate each characteristic
  polynomial on a basis of the states, `Xoroshiro128Jumps` and `Xoroshiro64Jumps` square x up to the jump
  constants.
- **Heap and closures.** `RefCount` is the reference-counted heap with its looping and recursing teardown;
  `Closures` is closure application on that heap. Compiled functions are given by two separate
  assumptions: `Owning`, that each consumes its arguments and returns one owned reference, on which the
  counts rest alone, and `Computes`, that its results are among those a relation allows. Both speak only
  of the functions the heap's closures may refer to; `SampleFunctions` shows them met. Numbers and strings
  stand for their contents, mutable and lazy cells for themselves.
- **Protocols.** `Force`, `Memo` and `Channel` are the lazy cell, the memo of a top-level value and the
  unbounded channel, each a step relation over any number of threads with an invariant over all runs, one
  shared access a step, under sequential consistency.
- **Strings.** `Utf8` is the codec and the theory of its chunks, `Strings` the operations on top. The
  standard is RFC 3629.
- **Integers.** `Integers` is the two-representation Integer, its operations writing into the operands'
  cells of the same heap.

`Powers` and `Threads` hold what several modules share. Code that updates state in place is written as
methods on arrays and on the classes `Heap`, `Xoroshiro128` and `Xoroshiro64`, proved against functions whose
laws are separate lemmas. A Dafny `Value` is the C value word; an object's identity stands for its address
and is never reused. The ghost parameters `owed` and `dying` of the heap's methods are the references held by
the running code and the objects whose teardown is under way.

## Findings

- **The scaling loops.** The comments say that each loop of `ratio_to_double` and the loop of the table
  generator run once or twice; the first never runs, the others adjust at most once
  (`DoubleParser.RatioToDouble`, `DoubleTables.NormalizeRatio`).
- **The second rounding of subnormals.** The parser is called correctly rounded, and its second rounding in
  `ldexp` possible in principle only. It goes wrong for the text 2.4703282292062328e-324, read as zero
  although 2^-1074 is nearer (`CorrectRounding.FailingText`), and in general exactly for decimals next to an
  odd multiple of 2^-1075 below 2^-1022, within half a 53-bit unit of it and on the side that this tie is
  not rounded to (`CorrectRounding.Slips`, `CorrectRounding.MeaningCorrectExactly`).
- **The sticky bits of the fast parser decide nothing.** Once the ambiguity guard has passed, the discarded
  part is strictly between zero and half, so rounding is by the round bit alone (`FastParse.KeptBits`).
- **The exponent cap.** `scan_decimal` holds the exponent at 10^9, so a printed text with a larger exponent
  would not read back; the exact condition is in `Layout.PrintedReadsBack`. No double reaches it.
- **The estimate of log10.** The printer calls a `floor(log10(v))` that is one off harmless. That is so for
  one too low, and for one too high where v is more than about 0.9008 of the power of ten, which is where
  a rounded logarithm errs (`DoublePrinter.GoodEstimate`, a sufficient condition). In general an estimate
  too high leaves some datum without an answer and the text empty: 0.30000000000000004 with any estimate
  above -1 (`LogEstimate.NoAnswer`, `LogEstimate.EstimateExactly`).
- **Trampolined closures.** The trampoline moves a closure's arguments without looking at its count. That is
  right if and only if the closure is unique or its arguments are not counted (`Closures.MovableExactly`).
- **Memos waiting across threads.** A dependency cycle through several threads is not detected and spins for
  good (`Memo.KnotSpins`), as the design notes say; one within a thread always is
  (`Memo.SelfWaitDetected`). Where every thread is idle or waiting, such a cycle is what they wait in
  (`Memo.OnlyKnotsHang`); a swap that keeps failing and an evaluation that never returns are not states of
  that kind.
- **Integer literals.** `integerEqualsLiteral` answers no for every immediate, so it is right exactly for
  literals that do not fit one (`Integers.EqualsLiteralExactly`).
- **Reversing malformed bytes** can merge two characters into one (`Utf8.ReverseMerges`); the exact condition
  is in `Utf8.ReverseDecodes`.

## Model

| member | source | states |
|---|---|---|
| Rounding.RoundHalfEvenIsNearest | rc2/support/rc2/idris2rc2_numeric.c:159-165 | round half to even picks an integer no other is nearer than, and the even one of two equally near |
| Rounding.WindowIsNearest | rc2/support/rc2/idris2rc2_numeric.c:146-168 | scaling a positive value into [2^52, 2^53), rounding it half to even and putting back a carry gives a nearest 53-bit float, ties to even, as section 4.3.1 of IEEE 754-2008 asks |
| Rounding.WindowIsOnlyNearest | rc2/support/rc2/idris2rc2_numeric.c:146-168 | no other 53-bit float is nearest, so the specification determines the result |
| Rounding.NearestIsRound53 | rc2/support/rc2/idris2rc2_numeric.c:130-134 | the nearest 53-bit float of a positive value exists and is unique |
| Rounding.LdexpValid | rc2/support/rc2/idris2rc2_numeric.c:167-170 | ldexp of a 53-bit float is a well-formed binary64 datum, infinity and subnormals included |
| Rounding.LdexpExact | rc2/support/rc2/idris2rc2_numeric.c:167-170 | and keeps the value whenever the result is normal |
| Rounding.DatumValue | rc2/support/rc2/idris2rc2_numeric.c:318-327 | the magnitude of a finite datum is its fraction field over 2^52, with a one in front unless the exponent field is zero, times 2^(field - 1023), or units of 2^-1074 |
| DoubleParser.FirstEstimate | rc2/support/rc2/idris2rc2_numeric.c:141-149 | the first estimate of the scale is never too small and at most one bit too large |
| DoubleParser.QuotientIsRound53 | rc2/support/rc2/idris2rc2_numeric.c:146-168 | a truncated quotient of 53 bits and its remainder determine the nearest float of the exact ratio |
| DoubleParser.ScaleUp | rc2/support/rc2/idris2rc2_numeric.c:150-153 | the first scaling loop keeps the ratio and only runs while the quotient has too few bits |
| DoubleParser.ScaleDown | rc2/support/rc2/idris2rc2_numeric.c:154-157 | the second loop ends with the quotient in [2^52, 2^53); the number of its rounds is bounded by the excess of the quotient |
| DoubleParser.RoundQuotient | rc2/support/rc2/idris2rc2_numeric.c:159-168 | the comparison of the doubled remainder with the divisor rounds half to even and renormalises a carry |
| DoubleParser.RatioToDouble | rc2/support/rc2/idris2rc2_numeric.c:134-171 | for every num >= 0 and den > 0 the result is ldexp of the float nearest to num/den; the first loop never iterates and the second at most once |
| DoubleParser.IntegerToDouble | rc2/support/rc2/idris2rc2_numeric.c:173-184 | a boxed Integer becomes ldexp of the nearest 53-bit float, negative exactly for a negative one (CorrectRounding.IntegersAreCorrect: that is the nearest double) |
| Decimal.ScanExponentDigits | rc2/support/rc2/idris2rc2_numeric.c:215-222 | the exponent is the number its digits denote, held at the cap of 10^9 however long they are |
| Decimal.ScanMantissaDigits | rc2/support/rc2/idris2rc2_numeric.c:196-208 | a run of digits extends the significand to the number all the digits together denote |
| Decimal.ScanDecimal | rc2/support/rc2/idris2rc2_numeric.c:191-228 | the scan accepts digits, an optional point and digits, an optional exponent part taken only when it has digits; it returns the end, the significand and the decimal exponent |
| DoubleParser.HugeIsInfinite | rc2/support/rc2/idris2rc2_numeric.c:249-251 | every value of at least 10^339 rounds to infinity, so the overflow shortcut is exact |
| DoubleParser.TinyIsZero | rc2/support/rc2/idris2rc2_numeric.c:252-253 | every positive value of at most 10^-340 rounds to zero, so the underflow shortcut is exact |
| DoubleParser.ShortcutsAgree | rc2/support/rc2/idris2rc2_numeric.c:249-253 | both shortcuts return what the division would, whether the library counts the digits exactly or one too high |
| DoubleParser.ParseDouble | rc2/support/rc2/idris2rc2_numeric.c:235-268 | for every text the result is ldexp of the 53-bit float nearest to the decimal the text denotes, with its sign: every spelling (blanks, +, - or no sign, digits, point, e or E) gives ldexp of its digits times its power of ten, negative exactly for -, and a text without a number the zero of its sign; when that is the nearest datum is CorrectRounding.MeaningCorrectExactly |
| Spelling.ScanNumber | rc2/support/rc2/idris2rc2_numeric.c:191-228 | digits, an optional point and digits and an exponent marked e or E are scanned as the number they spell, with the exponent held at 10^9, up to whatever follows |
| DoubleParser.ReadText | rc2/support/rc2/idris2rc2_numeric.c:235-248 | a spelled text is read with its blanks skipped, as negative exactly where its sign is -, and as the number it spells |
| DoubleParser.EveryText | rc2/support/rc2/idris2rc2_numeric.c:235-248 | every text spells a number or spells none, so the result is fixed for all of them |
| CorrectRounding.CorrectExactly | rc2/support/rc2/idris2rc2_numeric.c:130-134 | for every positive value, ldexp of its nearest 53-bit float is the nearest datum, ties to even, or infinity where IEEE 754 asks for it, if and only if the value is not next to an odd multiple of 2^-1075 below 2^-1022, on the side that tie is not rounded to, within half a unit of its own 53 bits |
| CorrectRounding.NormalsAreCorrect | rc2/support/rc2/idris2rc2_numeric.c:167-170 | no value from 2^-1022 up is affected |
| CorrectRounding.IntegersAreCorrect | rc2/support/rc2/idris2rc2_numeric.c:173-184 | so no integer is, and every boxed Integer becomes the nearest double |
| CorrectRounding.MeaningCorrectExactly | rc2/support/rc2/idris2rc2_numeric.c:230-268 | every text is read correctly rounded if and only if the decimal it denotes is no such value |
| CorrectRounding.TwoRoundings | rc2/support/rc2/idris2rc2_numeric.c:130-134 | rounding to 53 bits and then to the subnormal grid differs from rounding once exactly where the first rounding makes a tie that the second sends to the other side |
| CorrectRounding.LandsExactly | rc2/support/rc2/idris2rc2_numeric.c:159-168 | a value on that side of a tie rounds onto it if and only if it is within half a unit of the tie's 53 bits |
| CorrectRounding.FailingText | rc2/support/rc2/idris2rc2_numeric.c:230-268 | 2.4703282292062328e-324 is read as zero although 2^-1074 is nearer |
| Layout.PlacePoint | rc2/support/rc2/idris2rc2_numeric.c:278-308 | the text of 0.ds * 10^k, character by character: an e exactly for k <= -6 or k > 21, otherwise the point at place max(k, 1) with the digits and zeros around it and the total length |
| Layout.PrintedReadsBack | rc2/support/rc2/idris2rc2_numeric.c:278-308 | scanning the text place_point writes for 0.ds * 10^k reads all of it, and the value comes back exactly if and only if the layout has no exponent or the exponent is within the scanner cap |
| DoublePrinter.RoundedDigits | rc2/support/rc2/idris2rc2_numeric.c:335-356 | the big-integer division yields v * 10^q rounded half to even |
| DoublePrinter.CandidateReads | rc2/support/rc2/idris2rc2_numeric.c:359-372 | the text of one probe (trailing zeros stripped, point placed) denotes exactly its rounded digits times the power of ten |
| DoublePrinter.CandidateShown | rc2/support/rc2/idris2rc2_numeric.c:359-372 | and it shows those digits without a leading or a trailing zero |
| DoublePrinter.ExponentRange | rc2/support/rc2/idris2rc2_numeric.c:278-308 | it has an exponent exactly below 10^-6 and from 10^21 up |
| DoublePrinter.CloseRoundsBack | rc2/support/rc2/idris2rc2_numeric.c:318-377 | any value within a relative 2^-54 of a finite positive datum rounds to that datum, at powers of two and for subnormals as well |
| DoublePrinter.FloorIsGoodEstimate | rc2/support/rc2/idris2rc2_numeric.c:328-336 | the exact floor of log10, or anything below it, is an estimate under which 17 digits suffice |
| DoublePrinter.SeventeenDigitsReadBack | rc2/support/rc2/idris2rc2_numeric.c:318-377 | under a good estimate 17 digits read back as exactly the datum, for every finite positive datum |
| DoublePrinter.CandidateRange | rc2/support/rc2/idris2rc2_numeric.c:352-369 | whatever the estimate, a probe's text is within a factor of about ten of the datum, so its exponent has at most three digits |
| DoublePrinter.ShortestDouble | rc2/support/rc2/idris2rc2_numeric.c:318-377 | for every estimate of log10 the loop returns the first digit count that reads back as exactly v, at most 17, with the text of those digits, which does, and which has an exponent exactly below 10^-6 and from 10^21 up; the text is empty exactly where no digit count does, which no good estimate meets |
| LogEstimate.EstimateExactly | rc2/support/rc2/idris2rc2_numeric.c:328-375 | an estimate k above the floor of log10 gives every finite positive datum an answer if and only if k <= 0 |
| LogEstimate.LowEstimateAnswers | rc2/support/rc2/idris2rc2_numeric.c:328-375 | an estimate one too low, or lower, always yields an answer |
| LogEstimate.NoAnswer | rc2/support/rc2/idris2rc2_numeric.c:328-375 | for 0.30000000000000004 an estimate one too high, or higher, yields none |
| LogEstimate.CandidatesFit | rc2/support/rc2/idris2rc2_numeric.c:359-374 | with an estimate no more than one below the floor, every probe fits the digit buffer of 24 and the result of 32 bytes |
| DoubleTables.ScaleExists | libs/rc2base/support/c/idris2rc2_rc2base_gen_double_tables.c:35-82 | every positive value has a scale that gives it nbits bits |
| DoubleTables.EstimateWithinOne | libs/rc2base/support/c/idris2rc2_rc2base_gen_double_tables.c:45-47 | the estimate from the two bit lengths is that scale or one more |
| DoubleTables.NormalizeRatio | libs/rc2base/support/c/idris2rc2_rc2base_gen_double_tables.c:52-78 | the open-ended loop stops after at most one adjustment, with a normalised and rounded entry |
| DoubleTables.ComputeNormalizedPow | libs/rc2base/support/c/idris2rc2_rc2base_gen_double_tables.c:35-82 | for every base >= 2, exponent and width, the entry has exactly nbits bits and is within half a unit of base^exp * 2^E |
| FastParse.MakePow5Table | libs/rc2base/support/c/idris2rc2_rc2base_gen_double_tables.c:99-121 | each of the 651 rows of the generated power-of-five table is normalised to 128 bits and within half a unit |
| FastParse.MulHi128 | libs/rc2base/support/c/idris2rc2_rc2base_double_convert.c:40-46 | the two-word multiplication gives exactly the upper 128 bits of the 192-bit product |
| FastParse.KeptBits | libs/rc2base/support/c/idris2rc2_rc2base_double_convert.c:112-138 | the ambiguity guard puts the exact value strictly inside the half unit that the kept bits decide, so no tie and no carry from the discarded part is possible |
| FastParse.FastIsRound53 | libs/rc2base/support/c/idris2rc2_rc2base_double_convert.c:99-148 | the kept 53 bits, their round bit and the exponent formula give the nearest float of w * 10^q from any good table entry |
| FastParse.FastMantissa | libs/rc2base/support/c/idris2rc2_rc2base_double_convert.c:57-76 | when it accepts at most 19 digits, the 64-bit significand is exactly the number they denote, with no wrap-around |
| FastParse.FastExponent | libs/rc2base/support/c/idris2rc2_rc2base_double_convert.c:78-91 | when it accepts an exponent it is the one the full scanner reads |
| FastParse.FastProduct | libs/rc2base/support/c/idris2rc2_rc2base_double_convert.c:99-130 | whatever passes the guard rounds to the nearest float of w * 10^q |
| FastParse.TryFastParse | libs/rc2base/support/c/idris2rc2_rc2base_double_convert.c:51-159 | whenever the fast path accepts a text, its result is the correctly rounded decimal |
| FastParse.FastParseDouble | libs/rc2base/support/c/idris2rc2_rc2base_double_convert.c:161-165 | on every text, given a good table, the result is the datum ParseDouble returns |
| LinearSystem.ActMulX | libs/rc2base/support/c/idris2rc2_rc2base_f2x.c:79-98 | in a linear system its modulus annihilates, multiplying a polynomial by x modulo the modulus is one more step |
| LinearSystem.PolyAnnihilates | libs/rc2base/support/c/idris2rc2_rc2base_f2x.c:79-98 | the quotient ring itself satisfies its modulus: x^deg acts as the modulus |
| LinearSystem.ProductXPow | libs/rc2base/support/c/idris2rc2_rc2base_f2x.c:101-137 | x^m * x^n is x^(m+n) modulo any modulus, the law behind square-and-multiply |
| LinearSystem.ActXPow | libs/rc2base/support/c/idris2rc2_rc2base_f2x.c:114-137 | x^n modulo the characteristic polynomial, applied to a state, is n steps, for every n |
| F2x.MulXInPlace | libs/rc2base/support/c/idris2rc2_rc2base_f2x.c:80-98 | the word-by-word shift with carry, and the XOR when a bit falls off, multiply by x modulo charpoly |
| F2x.MulMod | libs/rc2base/support/c/idris2rc2_rc2base_f2x.c:101-111 | the bit-serial Horner loop computes the product modulo charpoly, also when both operands are one array |
| F2x.SquareStep | libs/rc2base/support/c/idris2rc2_rc2base_f2x.c:129-137 | one round of square-and-multiply takes x^m to x^(2m + bit) |
| F2x.JumpPolyN | libs/rc2base/support/c/idris2rc2_rc2base_f2x.c:129-137 | the output is x^n modulo charpoly for the whole multi-word number n |
| F2x.JumpPolyCe | libs/rc2base/support/c/idris2rc2_rc2base_f2x.c:114-124 | the output is x^(c * 2^e) modulo charpoly |
| F2x.BitOfNumber | libs/rc2base/support/c/idris2rc2_rc2base_f2x.c:126-136 | bit k of the little-endian number in the words is the bit the code reads, bit k % 64 of word k / 64 |
| Xoroshiro128Map.Linear128 | libs/rc2base/support/c/idris2rc2_rc2base_xoroshiro128plusplus.c:83-94 | the state transition is linear over XOR |
| Xoroshiro128Map.StepBits | libs/rc2base/support/c/idris2rc2_rc2base_xoroshiro128plusplus.c:83-94 | bit by bit: the new second word is the XOR of the two turned left by 28, the new first is the first turned left by 49, that XOR, and that XOR shifted left by 21 |
| Xoroshiro128Map.Satisfied | libs/rc2base/support/c/idris2rc2_rc2base_xoroshiro128plusplus.c:158 | the constant charpoly annihilates the transition: 128 steps are what its low coefficients do to the state |
| Xoroshiro128Jumps.JumpConstants | libs/rc2base/support/c/idris2rc2_rc2base_xoroshiro128plusplus.c:97-149 | the two published constants are x^(2^64) and x^(2^96) modulo charpoly |
| Xoroshiro128PlusPlus.Xoroshiro128.Next | libs/rc2base/support/c/idris2rc2_rc2base_xoroshiro128plusplus.c:83-94 | one call steps the state bit by bit as stated and returns the sum of the old words, turned left by 17 bit by bit, plus the first of them |
| Xoroshiro128PlusPlus.Xoroshiro128.JumpApply | libs/rc2base/support/c/idris2rc2_rc2base_xoroshiro128plusplus.c:165-179 | accumulating over the bits while stepping applies the polynomial to the state |
| Xoroshiro128PlusPlus.Xoroshiro128.Jump | libs/rc2base/support/c/idris2rc2_rc2base_xoroshiro128plusplus.c:97-121 | applying the published constant leaves exactly the state 2^64 calls of next leave |
| Xoroshiro128PlusPlus.Xoroshiro128.LongJump | libs/rc2base/support/c/idris2rc2_rc2base_xoroshiro128plusplus.c:124-149 | applying the published constant leaves the state 2^96 calls of next leave |
| Xoroshiro128PlusPlus.Xoroshiro128.JumpN | libs/rc2base/support/c/idris2rc2_rc2base_xoroshiro128plusplus.c:215-221 | leaves exactly the state n calls of next leave, for every 128-bit n |
| Xoroshiro128PlusPlus.Xoroshiro128.JumpCe | libs/rc2base/support/c/idris2rc2_rc2base_xoroshiro128plusplus.c:192-197 | leaves the state c * 2^e calls of next leave |
| Xoroshiro64Map.Linear64 | libs/rc2base/support/c/idris2rc2_rc2base_xoroshiro64starstar.c:76-87 | the 32-bit word transition is linear over XOR |
| Xoroshiro64Map.StepBits | libs/rc2base/support/c/idris2rc2_rc2base_xoroshiro64starstar.c:76-87 | bit by bit: the new second word is the XOR of the two turned left by 13, the new first is the first turned left by 26, that XOR, and that XOR shifted left by 9 |
| Xoroshiro64Map.Satisfied | libs/rc2base/support/c/idris2rc2_rc2base_xoroshiro64starstar.c:150 | the constant charpoly annihilates the transition: 64 steps are what its low coefficients do to the state |
| Xoroshiro64Jumps.JumpConstants | libs/rc2base/support/c/idris2rc2_rc2base_xoroshiro64starstar.c:90-142 | the two published constants are x^(2^32) and x^(2^48) modulo charpoly |
| Xoroshiro64StarStar.Xoroshiro64.Next | libs/rc2base/support/c/idris2rc2_rc2base_xoroshiro64starstar.c:76-87 | one call steps the state bit by bit as stated and returns five times what the old first word times 0x9E3779BB is, turned left by 5 bit by bit |
| Xoroshiro64StarStar.Xoroshiro64.JumpApply | libs/rc2base/support/c/idris2rc2_rc2base_xoroshiro64starstar.c:157-171 | accumulating over the bits while stepping applies the polynomial to the state |
| Xoroshiro64StarStar.Xoroshiro64.Jump | libs/rc2base/support/c/idris2rc2_rc2base_xoroshiro64starstar.c:90-115 | applying the published constant, its two 32-bit words taken as one of 64, leaves the state 2^32 calls of next leave |
| Xoroshiro64StarStar.Xoroshiro64.LongJump | libs/rc2base/support/c/idris2rc2_rc2base_xoroshiro64starstar.c:117-142 | applying the published constant leaves the state 2^48 calls of next leave |
| Xoroshiro64StarStar.Xoroshiro64.JumpN | libs/rc2base/support/c/idris2rc2_rc2base_xoroshiro64starstar.c:206-212 | leaves the state n calls of next leave, for every 64-bit n |
| Xoroshiro64StarStar.Xoroshiro64.JumpCe | libs/rc2base/support/c/idris2rc2_rc2base_xoroshiro64starstar.c:184-189 | leaves the state c * 2^e calls of next leave |
| RefCount.Heap.Release | rc2/support/rc2/idris2rc2_memory.h:47-60 | the count falls by one unless it is 65535; true exactly for the last reference |
| RefCount.Heap.Dup | rc2/support/rc2/idris2rc2_memory.h:64-76 | the count stays the maximum or the exact number of owning references, with one reference more |
| RefCount.DuppedTimesIs | rc2/support/rc2/idris2rc2_memory.h:85-112 | n single increments add n and stop at 65535, the value the batched form computes |
| RefCount.Heap.DupN | rc2/support/rc2/idris2rc2_memory.h:85-112 | the batched form leaves the heap n single dups leave, and the exact counts |
| RefCount.Heap.Alloc | rc2/support/rc2/idris2rc2_memory.c:20-62 | a new object takes over the references it is built from and is handed out with a count of one |
| RefCount.ReleaseKeeps | rc2/support/rc2/idris2rc2_memory.h:47-60 | giving up a reference keeps every count exact; with the last one, the object is dying and its fields are owed |
| RefCount.Heap.ReleaseField | rc2/support/rc2/idris2rc2_memory.c:251-287 | one field: the first dying child that is a constructor, a closure or a lazy cell is kept for the loop, any other is torn down by recursion, and all counts stay exact |
| RefCount.Heap.Teardown | rc2/support/rc2/idris2rc2_memory.c:234-365 | frees the object and what dies with it, terminates, keeps every count exact, changes no surviving cell but its count; recursion is at most one call deep unless some freed object has two dying children that are constructors, closures or lazy cells, or is a mutable cell or an array |
| RefCount.Heap.Drop | rc2/support/rc2/idris2rc2_memory.h:116-119 | keeps every count exact; in a heap without reference cycles it leaves exactly the objects still reachable, and exactly the heap a plain worklist leaves |
| RefCount.DroppedKeeps | rc2/support/rc2/idris2rc2_memory.c:227-365 | the plain worklist, freeing an object with its last reference, keeps every count exact and every survivor as it was |
| RefCount.Determined | rc2/support/rc2/idris2rc2_memory.c:227-365 | without cycles the exact counts and the remaining references determine the heap |
| RefCount.Heap.Free | rc2/support/rc2/idris2rc2_memory.c:367-379 | freeing a value known to be unshared keeps every count exact |
| RefCount.LiveIsReachable | rc2/support/rc2/idris2rc2_memory.c:227-365 | with exact counts and no cycle, every live object is reached from the running code or an immortal object: nothing leaks |
| RefCount.ReachableIsLive | rc2/support/rc2/idris2rc2_memory.c:227-365 | whatever a remaining reference reaches survives: nothing is freed too early |
| RefCount.RecursionSlim | rc2/support/rc2/idris2rc2_memory.c:208-220 | a recursive teardown of anything but a leaf shows an object with two dying children with children |
| Closures.MovableExactly | rc2/support/rc2/idris2rc2_rt.c:318-342 | consuming a closure's arguments without a dup keeps the counts if and only if the closure is unique or none of its arguments is counted |
| Closures.DispatchMoved | rc2/support/rc2/idris2rc2_rt.c:424-438 | a call on moved arguments, then the release of the shell: one owned result, exact counts and nothing owed disturbed, whatever the functions compute; a result the functions allow, if they do what is claimed of them |
| Closures.DispatchCopied | rc2/support/rc2/idris2rc2_rt.c:196-316 | a call on dup'd arguments, then the drop of the closure, promises the same for a closure of any count |
| Closures.Trampoline | rc2/support/rc2/idris2rc2_rt.c:318-342 | after any number of closures run: one owned value, exact counts and nothing owed disturbed; when it ends, a value the first closure may have |
| Closures.Extend | rc2/support/rc2/idris2rc2_rt.c:344-366 | arguments added in place to a unique closure, or to a copy of a shared one, give a unique closure with all the arguments; nobody else sees a change |
| Closures.GrowPreserves | rc2/support/rc2/idris2rc2_rt.c:347-354 | growing a unique closure in place changes the meaning of no other owned value |
| Closures.ApplyClosure | rc2/support/rc2/idris2rc2_rt.c:368-385 | one application, saturating or not, unique or shared: exact counts whatever the functions compute, and a value that applying the function to the argument may have |
| Closures.ApplyOneByOne | rc2/support/rc2/idris2rc2_rt.c:466-469 | n single applications: exact counts, and a value that applying the arguments one at a time may have |
| Closures.ApplyClosureN | rc2/support/rc2/idris2rc2_rt.c:417-470 | one n-ary application promises what the n single ones promise, for too few, exactly enough and too many arguments, with exact counts |
| Closures.OneValue | rc2/support/rc2/idris2rc2_rt.c:386-416 | where every call has one result, one application at a time or all in one, there is only one value to return |
| Closures.ApplySaturates | rc2/support/rc2/idris2rc2_rt.c:421-448 | exactly enough arguments, one at a time, have exactly the results of the call with all of them |
| Closures.ApplyUnder | rc2/support/rc2/idris2rc2_rt.c:450-464 | too few arguments, one at a time, are exactly the closure with all of them |
| SampleFunctions.SamplesMeetBoth | rc2/support/rc2/idris2rc2_rt.c:126-196 | the assumptions on compiled functions can be met together: by one that drops an argument, one that makes a boxed number, one that makes a mutable cell, one that builds a constructor and one that hands a closure to the trampoline |
| SampleFunctions.LaterWaits | rc2/support/rc2/idris2rc2_rt.c:318-342 | the last of them does return a unique closure that waits |
| Force.StepInv | rc2/support/rc2/idris2rc2_rt.c:592-641 | every step of every thread keeps the protocol, the closure's count and every value's count |
| Force.WrittenOnce | rc2/support/rc2/idris2rc2_rt.c:596-641 | over every run the evaluated flag never goes back and the stored word changes at most once |
| Force.OneResult | rc2/support/rc2/idris2rc2_rt.c:592-641 | any two forces that return, in any threads, nested ones included, return the same value, the one stored |
| Force.StaysLive | rc2/support/rc2/idris2rc2_rt.c:610-640 | the closure has a reference while any thread dispatches from it, and a value has one while any thread is about to share it |
| Force.Settles | rc2/support/rc2/idris2rc2_rt.c:626-640 | with no force under way on an evaluated cell, its reference to the closure is gone and it holds exactly one to its value |
| Force.LockExcludes | rc2/support/rc2/idris2rc2_rt.c:610-638 | no two threads are past the lock at once |
| Force.NoDeadlock | rc2/support/rc2/idris2rc2_rt.c:592-641 | some force under way can always take a step |
| Force.ExitsExactly | rc2/support/rc2/idris2rc2_rt.c:592-606 | a nested force ends the program if and only if the cell is unevaluated, and no other step does |
| Force.NestedGives | rc2/support/rc2/idris2rc2_rt.c:592-600 | of an evaluated cell it gives the value, with a new reference, and the evaluation goes on |
| Force.ForceEvaluated | rc2/support/rc2/idris2rc2_rt.c:592-600 | a force of an evaluated cell, by itself, hands over one new reference to its value in five steps, without the lock |
| Force.ForceUnevaluated | rc2/support/rc2/idris2rc2_rt.c:608-641 | the first force, by itself, evaluates the cell, leaves it and the caller a reference to the result each, gives up the cell's reference to the closure and frees the lock |
| Force.ForceOvertaken | rc2/support/rc2/idris2rc2_rt.c:610-616 | a force that finds the cell evaluated once it has the lock shares the value |
| Force.ForceLost | rc2/support/rc2/idris2rc2_rt.c:628-641 | one that finds it evaluated after its own evaluation gives the stored value and drops what it made |
| Memo.StepInv | rc2/support/rc2/idris2rc2_caf_memoize.c:20-39 | every step of every thread keeps the protocol, the cleanup list and every value's count |
| Memo.ClaimedOnce | rc2/support/rc2/idris2rc2_caf_memoize.h:45-50 | over every run one thread claims a memo, and no other ever does |
| Memo.OneEvaluator | rc2/support/rc2/idris2rc2_caf_memoize.h:45-50 | a memo is being evaluated by a thread exactly when that thread claimed it and it is not done |
| Memo.OneResult | rc2/support/rc2/idris2rc2_caf_memoize.c:20-39 | every request that returns, in any thread, gives the value stored in the memo |
| Memo.SelfWaitDetected | rc2/support/rc2/idris2rc2_caf_memoize.c:32-39 | a wait stops the program if and only if the memo is one the waiting thread is itself evaluating |
| Memo.KnotSpins | rc2/support/rc2/idris2rc2_caf_memoize.c:32-39 | any threads that each wait for a memo another of them is evaluating spin for good, and none of those memos is ever done |
| Memo.OnlyKnotsHang | rc2/support/rc2/idris2rc2_caf_memoize.c:32-39 | where every thread is idle or waits for an unfinished memo not its own, the waiting threads are such a set |
| Memo.KnotHappens | rc2/support/rc2/idris2rc2_caf_memoize.c:32-39 | a run that reaches such a set exists, as the design notes admit |
| Memo.RequestDone | rc2/support/rc2/idris2rc2_caf_memoize.c:20-39 | a request for a finished memo gives its value with a new reference and evaluates nothing |
| Memo.RequestNew | rc2/support/rc2/idris2rc2_caf_memoize.h:45-50 | the first request claims the memo, marks it as the thread's own and starts its evaluation |
| Memo.FinishOne | rc2/support/rc2/idris2rc2_caf_memoize.c:20-31 | the end of an evaluation stores the result, puts the memo in front of the cleanup list, marks it finished and returns the result |
| Memo.SwapDecides | rc2/support/rc2/idris2rc2_caf_memoize.c:20-31 | a swap succeeds where the head is still the one linked to and the weak swap does not fail; otherwise the memo is linked to the head there is |
| Memo.WaitDecides | rc2/support/rc2/idris2rc2_caf_memoize.c:32-39 | a wait ends where the memo is done and looks again where it is neither done nor the thread's own |
| Memo.DropAll | rc2/support/rc2/idris2rc2_caf_memoize.c:41-49 | the walk from the head drops the values of the memos on the list, one for one |
| Memo.TeardownExact | rc2/support/rc2/idris2rc2_caf_memoize.c:20-49 | at the end of any run the list holds each stored memo exactly once, and dropping its values leaves only the references handed to callers |
| Channel.StepInv | libs/rc2base/support/c/idris2rc2_rc2base_concurrency_util.c:188-271 | every step of every thread keeps the queue, its ends, its nodes and the wake-up balance |
| Channel.FirstInFirstOut | libs/rc2base/support/c/idris2rc2_rc2base_concurrency_util.c:188-271 | over every run with any mix of the three get forms, the values put in lock order are the values taken followed by the values queued |
| Channel.HistoryGrows | libs/rc2base/support/c/idris2rc2_rc2base_concurrency_util.c:188-271 | over every run both sequences only grow at their ends, so the order once fixed stays |
| Channel.EndsAgree | libs/rc2base/support/c/idris2rc2_rc2base_concurrency_util.c:199-218 | with the lock free, head is null exactly when tail is, and tail is the last node reached from head |
| Channel.NothingLost | libs/rc2base/support/c/idris2rc2_rc2base_concurrency_util.c:188-271 | every value put is returned, just dequeued or queued, and none twice |
| Channel.NodesExact | libs/rc2base/support/c/idris2rc2_rc2base_concurrency_util.c:188-271 | a node is allocated exactly while queued or in one thread's hands: none leaks, none is freed twice |
| Channel.NoLostWakeUp | libs/rc2base/support/c/idris2rc2_rc2base_concurrency_util.c:199-218 | a value never waits with every getter asleep |
| Channel.HolderCanStep | libs/rc2base/support/c/idris2rc2_rc2base_concurrency_util.c:188-271 | whoever holds the lock can take its next step, on nodes that are allocated |
| Channel.NothingMeansEmpty | libs/rc2base/support/c/idris2rc2_rc2base_concurrency_util.c:235-271 | over every run, a get that returns nothing holds the lock on an empty queue, everything put having been taken |
| Channel.CheckDecides | libs/rc2base/support/c/idris2rc2_rc2base_concurrency_util.c:219-271 | with the lock, a get takes the first node if there is one; an empty queue ends a non-blocking or timed-out get and puts any other to sleep with the lock given up |
| Channel.LastExactly | libs/rc2base/support/c/idris2rc2_rc2base_concurrency_util.c:235-271 | only a non-blocking get, or a timed one whose time is out, does not wait again |
| Channel.PutAlone | libs/rc2base/support/c/idris2rc2_rc2base_concurrency_util.c:188-218 | a put by itself leaves a new last node with the value, one sleeper woken if there are any, and the lock free |
| Channel.GetAlone | libs/rc2base/support/c/idris2rc2_rc2base_concurrency_util.c:219-271 | a get of any kind on a queue that is not empty, by itself, returns its first value and frees its node |
| Channel.TryGetAlone | libs/rc2base/support/c/idris2rc2_rc2base_concurrency_util.c:235-250 | a non-blocking get on an empty queue, by itself, returns nothing and changes nothing |
| Channel.TimedOutAlone | libs/rc2base/support/c/idris2rc2_rc2base_concurrency_util.c:252-271 | a timed get whose time is out on an empty queue, by itself, returns nothing and no longer sleeps |
| Channel.WokenAlone | libs/rc2base/support/c/idris2rc2_rc2base_concurrency_util.c:219-224 | a signalled sleeper goes back to the lock to look again, and a spurious wake-up does the same |
| Utf8.ByteMasks | rc2/support/rc2/idris2rc2_utf8.c:5-17 | the byte tests by mask are the ranges the model uses |
| Utf8.PayloadMasks | rc2/support/rc2/idris2rc2_utf8.c:30-50 | the shifts and masks of the decoder are the arithmetic the model uses |
| Utf8.EncodeMasks | rc2/support/rc2/idris2rc2_utf8.c:99-120 | and those of the encoder |
| Utf8.ChunkCut | rc2/support/rc2/idris2rc2_utf8.c:30-58 | a chunk decodes the same when what follows it is cut away |
| Utf8.ChunkByBytes | rc2/support/rc2/idris2rc2_utf8.c:10-50 | one step takes the lead byte and as many continuation bytes as follow, at most one after C0 to DF, two after E0 to EF and three after F0 to F4 |
| Utf8.DecodeByBytes | rc2/support/rc2/idris2rc2_utf8.c:10-58 | what a step takes decodes to its payload bits if it is a character of the grammar of RFC 3629, and to U+FFFD if not: overlong forms, surrogates, values above U+10FFFF, unfinished and stray bytes |
| Utf8.DecodeDrop | rc2/support/rc2/idris2rc2_utf8.c:82-90 | the bytes from the offset of character i decode to the characters from i on, for any bytes |
| Utf8.DecodeTake | rc2/support/rc2/idris2rc2_utf8.c:82-90 | the bytes up to that offset decode to the characters before i |
| Utf8.ConcatDecodes | rc2/support/rc2/idris2rc2_utf8.c:30-50 | chunks side by side decode one by one when none swallows the start of the next, and to fewer characters otherwise |
| Utf8.AppendDecodes | rc2/support/rc2/idris2rc2_strings.c:81-91 | appending bytes appends characters if and only if no chunk merges across the seam |
| Utf8.ReverseDecodes | rc2/support/rc2/idris2rc2_strings.c:23-53 | reversing chunk by chunk reverses the characters if and only if no unfinished chunk follows a stray continuation byte |
| Utf8.ReverseMerges | rc2/support/rc2/idris2rc2_strings.c:23-53 | a malformed string of two characters whose reversal is one |
| Utf8.EncodeOrder | rc2/support/rc2/idris2rc2_utf8.c:99-120 | of two encodings the smaller code point's is smaller at a byte both have |
| Utf8.ScalarDecodes | rc2/support/rc2/idris2rc2_utf8.c:30-50 | an encoded scalar value decodes to itself whatever follows |
| Utf8.SurrogateDecodes | rc2/support/rc2/idris2rc2_utf8.c:30-50 | an encoded surrogate is one chunk and decodes to U+FFFD whatever follows |
| Utf8.UnpackPacked | rc2/support/rc2/idris2rc2_strings.c:145-190 | unpacking a packed list gives it back if and only if it holds only Unicode scalar values |
| Utf8.PackUnpacked | rc2/support/rc2/idris2rc2_strings.c:145-190 | packing the unpacked bytes gives them back if and only if they match the grammar of section 4 of RFC 3629 |
| Strings.DecodeAt | rc2/support/rc2/idris2rc2_utf8.c:30-58 | one step consumes the maximal chunk and yields its code point, as Utf8.DecodeByBytes spells it out, or U+FFFD for a missing one |
| Strings.Length | rc2/support/rc2/idris2rc2_utf8.c:71-80 | the loop counts the decoded characters of any bytes |
| Strings.ByteOffsetOfChar | rc2/support/rc2/idris2rc2_utf8.c:82-90 | the loop finds the offset of a character, or the end |
| Strings.EncodeInto | rc2/support/rc2/idris2rc2_utf8.c:99-120 | writes exactly the encoding at the given place and nothing else |
| Strings.StrTail | rc2/support/rc2/idris2rc2_strings.c:7-21 | the tail decodes to all but the first character, for any bytes |
| Strings.StrIndex | rc2/support/rc2/idris2rc2_strings.c:55-65 | character i of any bytes, U+FFFD outside, negative indices included |
| Strings.StrCons | rc2/support/rc2/idris2rc2_strings.c:67-79 | the character put in front is the first of the result, a surrogate as U+FFFD |
| Strings.StrAppend | rc2/support/rc2/idris2rc2_strings.c:81-91 | appends the bytes, and the characters exactly when nothing merges |
| Strings.StrSubstr | rc2/support/rc2/idris2rc2_strings.c:93-124 | the substring of any bytes is the slice of its characters, empty for a negative argument |
| Strings.StrReverse | rc2/support/rc2/idris2rc2_strings.c:23-53 | the two passes give the chunks in reverse order |
| Strings.FastPack | rc2/support/rc2/idris2rc2_strings.c:145-171 | the two passes fill the measured buffer exactly with the encodings in order |
| Strings.Unpack | rc2/support/rc2/idris2rc2_strings.c:173-190 | the list holds the decoded characters in order |
| Strings.DecodeAtNul | rc2/support/rc2/idris2rc2_utf8.c:60-69 | without the length, one step is the step on the bytes before the first NUL |
| Strings.IteratorNext | rc2/support/rc2/idris2rc2_strings.c:287-300 | an iterator without the length takes the next character before the first NUL, and is done exactly when none is left |
| Strings.IteratorNextFixed | rc2/support/rc2/idris2rc2_strings.c:305-316 | an iterator with the length takes the next character of any bytes |
| Strings.IteratorsAgree | rc2/support/rc2/idris2rc2_strings.c:252-316 | the two walks see the same characters if and only if no byte is NUL |
| Strings.StrCmp3 | rc2/support/rc2/idris2rc2_numeric.h:333-339 | negative exactly where the first string ends first or has the smaller byte at the first difference, and zero exactly for equal strings |
| Strings.CompareIsCodePointOrder | rc2/support/rc2/idris2rc2_numeric.h:333-347 | for well-formed strings that order is the order of their code points, as section 1 of RFC 3629 promises |
| Integers.ImmFits | rc2/support/rc2/idris2rc2_datatypes.h:85-93 | an immediate word is 2n + 1 modulo 2^64 for a number n in [-2^62, 2^62), and they determine each other |
| Integers.EqualityOnWords | rc2/support/rc2/idris2rc2_numeric.h:450-455 | for canonical operands of which one is immediate, equal words means equal integers |
| Integers.Equal | rc2/support/rc2/idris2rc2_numeric.h:450-455 | equality decides integer equality for all canonical operands |
| Integers.OrderOfWords | rc2/support/rc2/idris2rc2_numeric.h:438-441 | two immediates are ordered as their signed words |
| Integers.Compare | rc2/support/rc2/idris2rc2_numeric.h:438-443 | the result is negative, zero or positive exactly as the first integer is less, equal or greater |
| Integers.EqualsLiteralExactly | rc2/support/rc2/idris2rc2_numeric.c:61-69 | the literal test is right for every canonical operand if and only if the literal has to be boxed |
| Integers.Normalize | rc2/support/rc2/idris2rc2_memory.c:96-109 | a number that fits becomes an immediate and its cell is dropped; any other stays boxed |
| Integers.MkInteger | rc2/support/rc2/idris2rc2_memory.h:221-229 | any 64-bit number comes out canonical |
| Integers.BinopSlow | rc2/support/rc2/idris2rc2_numeric.c:22-33 | whichever operand's cell takes the result, both operands are consumed, the result is canonical and no other owned value changes |
| Integers.Add | rc2/support/rc2/idris2rc2_numeric.h:373-377 | the sum, canonical, with no 64-bit overflow on the immediate path |
| Integers.Sub | rc2/support/rc2/idris2rc2_numeric.h:378-382 | the difference, canonical, with no 64-bit overflow on the immediate path |
| Integers.Mul | rc2/support/rc2/idris2rc2_numeric.h:383-389 | the product, canonical, whether or not 64 bits overflow |
| Integers.TruncToEuclid | rc2/support/rc2/idris2rc2_numeric.c:73-80 | the adjustments of C's truncated quotient and remainder give the Euclidean ones |
| Integers.Mod | rc2/support/rc2/idris2rc2_numeric.h:390-398 | the Euclidean remainder, never negative, canonical |
| Integers.Div | rc2/support/rc2/idris2rc2_numeric.c:72-92 | the Euclidean quotient, canonical; it leaves both operands as they are |
| Integers.Negate | rc2/support/rc2/idris2rc2_numeric.h:409-413 | the negation, canonical, also of -2^62 |
| Integers.ShiftBack | rc2/support/rc2/idris2rc2_numeric.h:421-425 | shifting the 64-bit word back gives the operand only if no bit was lost |
| Integers.ShiftL | rc2/support/rc2/idris2rc2_numeric.h:415-428 | the operand times 2^|count|, canonical, for a count below 2^64 in magnitude; for any other, 2^(|count| mod 2^64) |
| Integers.ShiftR | rc2/support/rc2/idris2rc2_numeric.h:429-436 | the result r is canonical with r * 2^|count| <= operand < (r + 1) * 2^|count|, for counts past 63 too (mod 2^64 as the code reads them) |
| Integers.BitOp | rc2/support/rc2/idris2rc2_numeric.h:399-407 | and, or and exclusive or of two's-complement numbers of any size, canonical |
| Integers.ImmBits | rc2/support/rc2/idris2rc2_numeric.h:399-404 | on two immediates the 64-bit operation stays in range and is that of the unbounded numbers |
| Integers.BitsBitByBit | rc2/support/rc2/idris2rc2_numeric.h:399-407 | every bit of the result, however far up, is the Boolean operation of the operands' bits, bit k of a being the parity of the floor of a / 2^k |

## Left out

- The Idris compiler passes; only design notes describe them.
- The 651 checked-in rows of the power-of-five table: the parser assumes a good table, and the table the
  generator makes is proved to be one.
- The branch of the polynomial arithmetic for a degree that is not a multiple of 64, which neither generator
  compiles in.
- Xoroshiro64StarStar.Xoroshiro64.Jump: walks the bits of the constant in the loop of `jump_apply`, as one
  64-bit word; the code has a second loop of its own over two 32-bit words with the same bits.
- `fast_shortest_double` and its digit generation, a heuristic with no stated bound; and fewest digits as a
  property of the exact printer, whose rounding interval is lopsided at powers of two.
- NaN and infinity as printed text, and the C library's `log10`, which enters as an integer of any value.
- GMP internals (its numbers are integers; `mpz_sizeinbase(n, 10)` may be exact or one too large), memory
  exhaustion, sizes beyond the C types other than where a contract mentions them.
- Weak memory orders, and atomic counts racing near the maximum: the heap is single-threaded and the
  protocols are sequentially consistent with unbounded counts.
- GC pointers, whose finaliser runs user code during teardown.
- The storage of the forcing stack (a fixed array that moves to the heap): only whether a cell is on it counts.
- The memo of a native value: the same claim and wait, with no references to count.
- The 8-bit widths of a closure's arity and argument count, and the calling convention above 20 arguments.
- Termination of compiled code: a call always returns, and what is promised of the trampoline holds after
  every number of closures run, whether or not it has come to an end.
- Closures.Trampoline: requires that a saturated closure it is given, or a compiled function returns, may be
  consumed, which is the exact condition of `MovableExactly`.
- Closures.ApplyOneByOne: stops where the word to apply takes no argument, which the C code does not check
  and a typed program does not meet; the arguments left over are then still owned.
- What a mutable or lazy cell holds: a result that is one is known by its identity only.
- Integers.Mod: requires a divisor other than zero, as does Integers.Div; division by zero is an error of the
  program.
- Integers.ShiftL: a boxed count is read as the low limb of its magnitude, as the code does.
- FastParse.TryFastParse: which texts it declines is not stated, only that what it accepts is right.
- DoublePrinter.ShortestDouble: takes the estimate of log10 as a parameter, any integer.
- Strings.StrIndex: requires a string of less than 2^32 bytes, which the runtime enforces when it makes one.
- The fixed-width integer operations, casts, buffers, regular expressions, clocks, sockets and terminal
  bindings: easy members or plumbing.
