# Advent of Code 2022 in Dafny: arbitrary-precision integers and puzzles 1 to 13

This project models the 2022 solutions of a personal Advent of Code repository
and proves properties of the model.

- `2022/bigint.rs` is a signed arbitrary-precision integer. It stores
  little-endian base-10^9 limbs and a sign flag, and supports comparison,
  addition, subtraction, multiplication, modulo, division, `u64`/`usize`
  conversions, decimal parsing and `Display`.
- `2022/day1.rs` to `2022/day13.rs` (with day 9 split into
  `day9_part1.rs` and `day9_part2.rs`) are the puzzle programs.

Each Rust function or method has a Dafny counterpart.

- Loops that update variables, arrays or struct fields are Dafny methods
  with loop invariants. Each method's `ensures` ties its result or new state
  to a specification function.
- A struct whose methods update its fields is a Dafny `class`: the rope of
  day 9, the CPU of day 10 and the packet parser of day 13.
- The specification functions are pure. The lemmas beside them state what
  the program promises: round trips, invariants, conservation laws, optimality
  of a search, agreement with integer arithmetic, and so on.

A Rust panic (`unwrap` on a failed parse, an index out of bounds, `u8`
underflow) becomes a `None` or `Err` result. The only exceptions are listed
under "Left out" below.

The integer operations are modelled exactly as written. Where the code
departs from integer arithmetic, the lemmas in `BigNum`, `BigDiv` and
`BigText` pin down the inputs on which it agrees. A concrete input shows each
departure, and `BigCorrected` holds the evidently intended definition with its
property proved (see "Findings"). The day 11 simulation is handled the same
way.

Shared modules:
- `Results`: Option and Result;
- `TextNum`: the parts of Rust's `str::parse`, `split`, `split_once`,
  `split_whitespace`, `trim` and `{}`/`{:09}` formatting that the code uses;
- `Sorting`: `sort_by(|a, b| b.cmp(a))`;
- `Limbs`: `Mag`, the value of a limb sequence;
- `Day9Moves`: `Dir`, `Point` and `get_move`, which both day 9 files declare
  identically.

Where the code departs from integer arithmetic, the model follows the code:
- `modulo` of a negative dividend returns `|b| + |a|`, not the floored
  residue (`-7 % 3` gives 10, not 2).
- `from_str` cuts the digit string into 9-digit chunks from the left, not from
  the right.
- `div_rem` builds the shifted remainder with an untrimmed product, so its
  quotient limbs can leave the base.

## Model

| member | source | states |
|---|---|---|
| BigNum.Zero | 2022/bigint.rs:16-21 | zero is the canonical, non-negative representation of 0 |
| BigNum.One | 2022/bigint.rs:23-28 | one is the canonical, non-negative representation of 1 |
| BigNum.Abs | 2022/bigint.rs:293-298 | abs keeps the limbs, clears the sign and denotes the absolute value |
| BigNum.WithSign | 2022/bigint.rs:300-309 | with_sign keeps the limbs and sets the sign, except that zero stays non-negative |
| BigNum.Cmp | 2022/bigint.rs:391-421 | the loop over the limbs from the top returns the ordering the specification Compare gives |
| BigNum.CompareEqualIff | 2022/bigint.rs:391-421 | cmp answers Equal exactly when the two representations are identical |
| BigNum.CompareAntisymmetric | 2022/bigint.rs:391-421 | swapping the arguments of cmp reverses its answer |
| BigNum.CompareTransitive | 2022/bigint.rs:391-421 | Less is transitive on valid representations |
| BigNum.CompareByKey | 2022/bigint.rs:391-421 | mixed signs order negative below non-negative; for equal signs the magnitude order decides, reversed when both are negative |
| BigNum.CompareMatchesValue | 2022/bigint.rs:391-421 | on trimmed representations, cmp is the order of the integers denoted |
| BigNum.CompareNonNegativeMag | 2022/bigint.rs:391-421 | with a trimmed operand, cmp's answer bounds the magnitudes, which the subtraction loops rely on |
| BigNum.AddLimbsProps | 2022/bigint.rs:87-108 | the carry loop yields limbs below the base whose value is the sum plus the carry; one extra top limb of 1 appears exactly when the sum overflows the width |
| BigNum.AddLimbsCommutes | 2022/bigint.rs:87-108 | the limb-wise sum does not depend on the order of its arguments |
| BigNum.AddUnsigned | 2022/bigint.rs:87-108 | add_unsigned's loop computes MagnitudeSum |
| BigNum.MagnitudeSumProps | 2022/bigint.rs:87-108 | add_unsigned returns a non-negative representation of the sum of the magnitudes, at most one limb longer than the longer operand, canonical on canonical inputs |
| BigNum.SubLimbsModular | 2022/bigint.rs:120-132 | the borrow loop computes the difference modulo base^width: the final borrow is dropped |
| BigNum.SubLimbsExact | 2022/bigint.rs:120-132 | when the first magnitude is at least the second, the borrow loop gives the exact difference |
| BigNum.SubLimbsSelf | 2022/bigint.rs:120-132 | subtracting a limb sequence from itself gives all zero limbs |
| BigNum.DirectDifferenceProps | 2022/bigint.rs:118-141 | without the swap, sub_unsigned gives a trimmed non-negative result equal to the modular difference, and exact when no borrow is lost |
| BigNum.MagnitudeDifferenceProps | 2022/bigint.rs:110-142 | sub_unsigned's result is trimmed and negative exactly when cmp ranks the first operand below the second |
| BigNum.MagnitudeDifferenceNonNegative | 2022/bigint.rs:110-142 | on non-negative canonical inputs, sub_unsigned is exact subtraction, negative exactly when the first magnitude is smaller, and zero on equal inputs |
| BigNum.PopZeroTop | 2022/bigint.rs:134-136 | the trimming loop removes exactly the zero top limbs, keeping at least one limb |
| BigNum.BorrowSubtract | 2022/bigint.rs:117-141 | the borrow loop followed by the trim computes DirectDifference |
| BigNum.SubUnsigned | 2022/bigint.rs:110-142 | sub_unsigned, with its self < other swap, computes MagnitudeDifference |
| BigNum.Add | 2022/bigint.rs:144-155 | add dispatches on the two signs as the code does (specification Sum) |
| BigNum.Sub | 2022/bigint.rs:157-168 | sub dispatches on the two signs as the code does (specification Difference) |
| BigNum.SumValid | 2022/bigint.rs:144-168 | add and sub keep limbs below the base |
| BigNum.MixedDifference | 2022/bigint.rs:110-142 | with a non-negative and a negative operand, the signed self < other test never swaps, so the result is exact only when the first magnitude is at least the second |
| BigNum.SumExactIff | 2022/bigint.rs:144-155 | add equals integer addition if and only if the signs agree or the non-negative operand has the larger magnitude |
| BigNum.DifferenceExactIff | 2022/bigint.rs:157-168 | sub equals integer subtraction if and only if some operand is non-negative or the magnitudes are equal |
| BigNum.SumCommutes | 2022/bigint.rs:144-155 | add is commutative on representations |
| BigNum.DifferenceSelf | 2022/bigint.rs:157-168 | a - a is zero |
| BigNum.SumZeroNonNegative | 2022/bigint.rs:144-155 | adding zero to a non-negative canonical number returns it unchanged |
| BigNum.SumZeroNegativeFive | 2022/bigint.rs:144-155 | -5 + 0 evaluates to 999999995 (the add/sub finding) |
| Limbs.TrimZerosProps | 2022/bigint.rs:134-136 | trimming keeps the value and at least one limb, and leaves no zero top limb above the lowest |
| Limbs.MagBound | 2022/bigint.rs:6-13 | n limbs below the base denote less than base^n |
| Limbs.MagInjective | 2022/bigint.rs:6-13 | two limb sequences of the same length and value are equal |
| Limbs.TrimmedUnique | 2022/bigint.rs:6-13 | a value has exactly one trimmed limb sequence |
| Limbs.AllZeroMag | 2022/bigint.rs:6-13 | every limb is zero exactly when the limbs denote 0 |
| BigConvert.OfNatProps | 2022/bigint.rs:30-45 | from_u64 gives a canonical non-negative representation of n, equal to zero() exactly for 0 |
| BigConvert.OfNatInjective | 2022/bigint.rs:30-45 | distinct naturals give distinct representations |
| BigConvert.FromU64 | 2022/bigint.rs:30-45 | the division loop computes OfNat |
| BigConvert.CheckedFoldMag | 2022/bigint.rs:224-234 | the checked fold of to_usize yields the magnitude exactly when it fits in u64, else None |
| BigConvert.UsizeValueProps | 2022/bigint.rs:215-241 | to_usize is Some exactly for non-negative numbers whose magnitude fits usize, and then holds the magnitude |
| BigConvert.ToUsizeOfNat | 2022/bigint.rs:215-241 | to_usize inverts from_u64 |
| BigConvert.ToUsize | 2022/bigint.rs:215-241 | the loop from the top limb with checked_mul and checked_add computes UsizeValue |
| BigConvert.CheckedFoldNoneUp | 2022/bigint.rs:224-234 | once a suffix overflows, the whole fold overflows |
| BigMul.ScaleLimbsProps | 2022/bigint.rs:174-185 | one row of the schoolbook product has limbs below the base and value a * digit + carry |
| BigMul.AccumulatedProps | 2022/bigint.rs:170-192 | after n rows, the running result holds a * (the low n limbs of b) |
| BigMul.ProductProps | 2022/bigint.rs:170-195 | mul's magnitude is the product of the magnitudes and its sign is the xor of the signs |
| BigMul.ProductValue | 2022/bigint.rs:170-195 | mul is integer multiplication on every pair of valid operands |
| BigMul.ProductZeroUntrimmed | 2022/bigint.rs:170-195 | mul does not trim: 0 * 10^9 has two zero limbs, and -5 * 0 is a negative zero |
| BigMul.ScaledRow | 2022/bigint.rs:174-185 | the inner loop computes the shifted row |
| BigMul.Mul | 2022/bigint.rs:170-195 | mul's nested loops compute Product |
| BigDiv.SubtractLoop | 2022/bigint.rs:204-206 | on every input where the loop ends, repeated subtraction stops below the divisor |
| BigDiv.EndsStep | 2022/bigint.rs:204-206 | a pass keeps the loop ending; against a divisor of magnitude zero a pass happens only on an untrimmed value and leaves it below the divisor |
| BigDiv.SubtractLoopDivides | 2022/bigint.rs:204-206 | on non-negative input, the loop count and what is left are the quotient and remainder of the magnitudes |
| BigDiv.ResidueNonNegative | 2022/bigint.rs:197-213 | modulo of a non-negative number is the remainder of the magnitudes |
| BigDiv.ResidueNegative | 2022/bigint.rs:197-213 | modulo of a negative number skips the loop and returns abs(b) - a, that is, abs(b) + abs(a) |
| BigDiv.ResidueZeroMagnitude | 2022/bigint.rs:197-213 | modulo by a divisor of magnitude zero with more limbs than the trimmed non-negative dividend returns the dividend, trimmed after one pass when it is at least as long |
| BigDiv.ResidueZeroPair | 2022/bigint.rs:197-213 | 5 modulo [0, 0] is 5, and [5, 0] modulo [0, 0] is [5] |
| BigDiv.ResidueMinusSeven | 2022/bigint.rs:197-213 | -7 modulo 3 evaluates to 10 (the modulo finding) |
| BigDiv.Modulo | 2022/bigint.rs:197-213 | the while loop computes Residue |
| BigDiv.ShiftIn | 2022/bigint.rs:268 | remainder * from_u64(BASE) + from_u64(digit) stays a valid representation |
| BigDiv.DivideStep | 2022/bigint.rs:267-277 | one iteration of the digit loop computes the shift followed by the subtraction loop |
| BigDiv.SubtractWhile | 2022/bigint.rs:271-274 | the inner while loop computes SubtractLoop |
| BigDiv.DigitLoop | 2022/bigint.rs:267-277 | the loop over the limbs from the top computes LongDivision |
| BigDiv.DivRem | 2022/bigint.rs:252-291 | div_rem computes QuotientRemainder, with Err where the code panics on a zero divisor |
| BigDiv.Div | 2022/bigint.rs:243-250 | div computes the quotient of QuotientRemainder |
| BigDiv.QuotientRemainderByZero | 2022/bigint.rs:243-256 | div and div_rem fail exactly when the divisor is zero() |
| BigDiv.RemainderSign | 2022/bigint.rs:252-291 | a negative remainder comes only from a negative dividend |
| BigDiv.DivRemSingleLimb | 2022/bigint.rs:252-291 | for a one-limb dividend, div_rem gives canonical q and r with q*b + r = a, r < b, the remainder taking the dividend's sign and the quotient the xor of the signs |
| BigDiv.QuotientBelowDividend | 2022/bigint.rs:258-262 | a quotient is never larger than its dividend |
| BigDiv.DivRemTwoLimbs | 2022/bigint.rs:267-277 | 1000000005 / 7 returns a quotient whose limb is not below the base (the div_rem finding) |
| BigDiv.FirstQuotientLimb | 2022/bigint.rs:267-279 | over two limbs from zero(), the top limb after the reverse is the count of the first step |
| BigDiv.QuotientOverflow | 2022/bigint.rs:279-289 | a top count not below the base survives the trim, and the returned quotient breaks the limb invariant |
| BigDiv.ZeroMagnitude | 2022/bigint.rs:204-206 | against a divisor of magnitude zero, cmp ranks a non-negative value below it exactly when the value has fewer limbs, and sub trims the value without changing its magnitude |
| BigDiv.ZeroDivisorSpins | 2022/bigint.rs:204-206 | off Ends (a divisor of magnitude zero no longer than the trimmed non-negative value), every round leaves the magnitude unchanged and the loop condition true, so the loop never ends |
| BigDiv.ZeroPairReturns | 2022/bigint.rs:267-277 | against the divisor [0, 0], a zero remainder shifts to [digit, 0] and one pass leaves [digit], so [5, 0] / [0, 0] returns limbs [1, 1] with remainder [5] |
| BigDiv.ZeroPairPass | 2022/bigint.rs:271-274 | one pass of the inner loop takes [x, 0] to [x] against [0, 0] and stops |
| BigDiv.ZeroPairSpins | 2022/bigint.rs:267-274 | against [0, 0], the remainder [5] shifts to [0, 5], on which the inner loop does not end |
| BigDiv.NegativeZeroDivisor | 2022/bigint.rs:252-274 | the divisor "-0" is valid and differs from zero(), so the zero check passes it; its absolute value is zero(), and no dividend is below it (the zero-divisor finding) |
| BigText.FromStr | 2022/bigint.rs:47-85 | from_str computes Parse |
| BigText.PushChunks | 2022/bigint.rs:61-69 | the chunking loop computes LeftChunks |
| BigText.Fmt | 2022/bigint.rs:424-438 | Display writes Text: the sign, the top limb, then each lower limb padded to 9 digits |
| BigText.LeftChunksProps | 2022/bigint.rs:61-71 | the parsed chunks are limbs below the base, there is at least one, and the empty-string error cannot arise there |
| BigText.ParseEmpty | 2022/bigint.rs:48-55 | from_str fails with "Empty string" exactly on "" and "-" |
| BigText.ParseCanonical | 2022/bigint.rs:47-85 | a successful parse is canonical and negative exactly when the text starts with '-' |
| BigText.NegativeZero | 2022/bigint.rs:47-85 | "-0" parses to a negative zero |
| BigText.ParseValue | 2022/bigint.rs:47-85 | for at most 9 digits or a multiple of 9, from_str yields the value of the digits |
| BigText.TenDigits | 2022/bigint.rs:61-71 | "1000000000" parses to limbs [0, 100000000], which is not 10^9 (the from_str finding) |
| BigText.DigitsProps | 2022/bigint.rs:424-438 | the digits Display writes denote the magnitude and have the expected length, with no leading zero |
| BigText.RoundTrip | 2022/bigint.rs:47-85 | from_str inverts Display whenever the top limb has 9 digits or there is a single limb |
| BigText.ParseAlignedValue | 2022/bigint.rs:47-85 | right-aligned chunking yields the canonical value of any digit string, with the sign of the leading '-' |
| BigText.RoundTripAligned | 2022/bigint.rs:47-85 | with right-aligned chunking, parsing inverts Display on every canonical number |
| BigText.AlignedAgrees | 2022/bigint.rs:47-85 | where from_str is right, it agrees with the right-aligned parse |
| BigText.FromStrAligned | 2022/bigint.rs:47-85 | a loop that cuts chunks from the right computes ParseAligned |
| BigCorrected.SumByMagnitudeExact | 2022/bigint.rs:144-155 | add that compares magnitudes before subtracting is integer addition |
| BigCorrected.DifferenceByMagnitudeExact | 2022/bigint.rs:157-168 | sub that compares magnitudes is integer subtraction |
| BigCorrected.SumAgrees | 2022/bigint.rs:144-155 | where add is right, it agrees with the corrected addition |
| BigCorrected.FlooredResidueValue | 2022/bigint.rs:197-213 | the corrected modulo is the non-negative residue a mod abs(b) |
| BigCorrected.FlooredResidueAgrees | 2022/bigint.rs:197-213 | on non-negative dividends, the corrected modulo agrees with modulo |
| BigCorrected.FlooredMinusSeven | 2022/bigint.rs:197-213 | the corrected -7 modulo 3 is 2 |
| BigCorrected.LongDivisionExactValue | 2022/bigint.rs:267-277 | long division with an exact shift keeps quotient * divisor + remainder equal to the digits consumed |
| BigCorrected.ExactDivRem | 2022/bigint.rs:252-291 | corrected div_rem gives q*b + r = a in magnitudes with r < b, and the signs of the code |
| BigCorrected.ExactByValue | 2022/bigint.rs:252-291 | corrected div_rem gives m / d and m % d |
| BigCorrected.ExactTwoLimbs | 2022/bigint.rs:252-291 | corrected 1000000005 / 7 gives 142857143 remainder 4 |
| BigCorrected.ExactByZero | 2022/bigint.rs:252-256 | corrected div_rem refuses exactly the divisors of zero magnitude, "-0" included |
| TextNum.ParseIntDigits | 2022/day4.rs:9-10 | parse of a digit string is its value when within the type's bounds, else an error |
| TextNum.ParseIntDecimal | 2022/day4.rs:9-10 | parse inverts `{}` formatting of every in-range natural |
| TextNum.ParseIntRefuses | 2022/day5.rs:21-26 | an empty word, or one that does not start with a digit or sign, does not parse, so the filter_map of parse_move drops it |
| TextNum.SplitOnceProps | 2022/day4.rs:24 | split_once succeeds exactly when the separator occurs, and splits at its first occurrence |
| TextNum.SplitProps | 2022/day9_part1.rs:73 | split pieces hold no separator and joining them back gives the line |
| TextNum.WordsProps | 2022/day2.rs:25 | split_whitespace yields non-empty words without whitespace |
| TextNum.TrimProps | 2022/day13.rs:129-136 | trim leaves no whitespace at either end and is idempotent |
| TextNum.PaddedProps | 2022/bigint.rs:432-434 | `{:09}` gives exactly 9 digits of the same value |
| TextNum.DecimalProps | 2022/bigint.rs:430 | `{}` gives the decimal digits of the value, with no leading zero |
| Sorting.SortDescProps | 2022/day1.rs:15 | the sort yields a non-increasing permutation |
| Sorting.SortDescHead | 2022/day1.rs:16 | the first element after sorting is the maximum |
| Sorting.SortDescPrefix | 2022/day1.rs:17 | every element of the first k is at least every later one |
| Sorting.SortDescTopTwo | 2022/day11.rs:113-114 | the first two elements after sorting have the largest product of two distinct positions |
| Day1.GroupTotals | 2022/day1.rs:4-14 | the line loop computes Totals: one total per group, closed by every line that is not an i32 |
| Day1.Solve | 2022/day1.rs:15-17 | part 1 is a total and is at least every total; part 2 is the sum of the first three of the sorted totals |
| Day1.TotalsCount | 2022/day1.rs:4-14 | there is one total more than there are separator lines, and the totals add up to all the calories |
| Day1.TopThree | 2022/day1.rs:15-17 | each of the three totals summed for part 2 is at least every total left out |
| Day2.MoveScore | 2022/day2.rs:1-8 | your shape scores 1 for X, 2 for Y and 3 for anything else |
| Day2.Part1 | 2022/day2.rs:22-37 | the loop computes the part 1 score: shape score plus 3 for a draw or 6 for a win |
| Day2.Part2 | 2022/day2.rs:57-80 | the loop computes the part 2 score from the required outcome |
| Day2.DrawNotWin | 2022/day2.rs:10-20 | no round is both a draw and a win |
| Day2.ShapeChoices | 2022/day2.rs:38-55 | move_value and draw_move_value pick exactly the shape that wins, draws or loses by you_win and is_equal |
| Day2.OutcomeAsRound | 2022/day2.rs:57-80 | each part 2 round scores as the part 1 round of the shape that reaches the outcome |
| Day2.Part1Bounds | 2022/day2.rs:22-37 | each round scores between 1 and 9 |
| Day3.Index | 2022/day3.rs:20-23 | a letter's slot is inside the 52-entry count array |
| Day3.Priorities | 2022/day3.rs:20-23 | a-z have priorities 1-26, A-Z 27-52, and distinct letters get distinct slots |
| Day3.IncrementStorage | 2022/day3.rs:1-7 | increment_storage adds one to the slot of exactly one array, chosen by first_half |
| Day3.CountHalves | 2022/day3.rs:13-25 | after the byte loop, the arrays count each type in the first and second half of the line |
| Day3.CountChar | 2022/day3.rs:18-24 | one byte of the loop adds one to its type's counter in the half it belongs to, so the counts keep matching the prefix read so far |
| Day3.LinePriority | 2022/day3.rs:12-31 | one line contributes the priorities of the types in both halves |
| Day3.Part1 | 2022/day3.rs:9-34 | part 1 is the sum over the lines |
| Day3.CountLine | 2022/day3.rs:42-48 | filling one bag row counts the line's types and leaves the other rows alone |
| Day3.GroupPriority | 2022/day3.rs:52-56 | a group of three contributes the priorities of the types common to all three |
| Day3.Part2 | 2022/day3.rs:36-61 | part 2 is the sum over complete groups of three; a trailing partial group adds nothing |
| Day3.CountPositive | 2022/day3.rs:28 | a non-zero count means the type occurs in the line |
| Day3.SingleCommon | 2022/day3.rs:27-31 | a single common type t contributes t + 1 |
| Day4.CountLine | 2022/day4.rs:23-33 | one parsed line adds one exactly when its pair passes the test and fails with the line the code panics on |
| Day4.Count | 2022/day4.rs:21-54 | the line loop computes CountPairs for part 1 and part 2 |
| Day4.CountPairsErrUp | 2022/day4.rs:21-54 | a panic on an early line makes the whole count fail |
| Day4.FullyOverlapMeaning | 2022/day4.rs:16-19 | fully_overlap is symmetric and, on proper ranges, means one range's sections all lie in the other |
| Day4.OverlapMeaning | 2022/day4.rs:43-45 | the part 2 test holds exactly when the ranges share a section |
| Day4.Part1WithinPart2 | 2022/day4.rs:21-54 | the part 1 count never exceeds the part 2 count |
| Day4.NoComma | 2022/day4.rs:24-32 | a line without ',' fails |
| Day4.ParseSectionDecimal | 2022/day4.rs:6-14 | parse_section reads back "a-b" |
| Day5.Initial | 2022/day5.rs:7-19 | there are nine initial stacks |
| Day5.CreateInitialStack | 2022/day5.rs:7-19 | the array holds the nine initial stacks |
| Day5.CraneOne | 2022/day5.rs:39-42 | the part 1 loop moves crates one at a time as Crane1 does, failing where the code panics |
| Day5.CraneBlock | 2022/day5.rs:53-58 | the part 2 block move does what Crane2 does, failing where the code panics |
| Day5.ReadTops | 2022/day5.rs:44-46 | reading the last crate of each stack computes Tops |
| Day5.Solve | 2022/day5.rs:35-64 | both parts compute Answer: the tops after all moves, or None on a panic |
| Day5.RunNoneUp | 2022/day5.rs:35-64 | a panic on an early line makes the whole run fail |
| Day5.RepeatReverses | 2022/day5.rs:39-42 | n single moves take the top n crates and pile them on in reverse order |
| Day5.Part1Move | 2022/day5.rs:39-42 | a part 1 move reverses the moved block, and fails when the stack holds fewer crates |
| Day5.Part2Move | 2022/day5.rs:53-58 | a part 2 move keeps the block's order |
| Day5.SingleCrate | 2022/day5.rs:35-64 | both cranes agree on one-crate moves |
| Day5.MoveConserves | 2022/day5.rs:35-64 | a move keeps the number of crates and leaves the other stacks alone |
| Day5.TopsMeaning | 2022/day5.rs:44-46 | the tops exist exactly when no stack is empty, and are the last crates |
| Day5.ParseMoveLine | 2022/day5.rs:21-33 | parse_move reads "move c from f to t" as (c, f-1, t-1) |
| Day6.Solution | 2022/day6.rs:1-20 | the sliding-window loop computes Marker |
| Day6.Shrink | 2022/day6.rs:9-12 | the inner loop advances the window start to Advance and keeps the counts equal to the window's letters |
| Day6.AdvanceProps | 2022/day6.rs:9-12 | the new start is the least start at which the window has pairwise different letters |
| Day6.StartProps | 2022/day6.rs:8-18 | the window start is the least distinct start and never moves back |
| Day6.MarkerMeaning | 2022/day6.rs:1-20 | a non-zero answer ends the first window of marker_size + 1 different letters; 0 means there is none |
| Day7.Execute | 2022/day7.rs:69-100 | one line of the session updates the tree and the directory stack as Step does |
| Day7.Replay | 2022/day7.rs:64-100 | replaying the session computes Run |
| Day7.RunNoneUp | 2022/day7.rs:64-100 | a panic on an early line makes the whole replay fail |
| Day7.SumFiles | 2022/day7.rs:40-42 | the file loop adds the sizes of all files |
| Day7.CountValidDirSize | 2022/day7.rs:38-50 | count_valid_dir_size returns the directory's size and adds the sizes of the small directories to total |
| Day7.FindDirToRemoveSize | 2022/day7.rs:52-62 | find_dir_to_remove_size returns the size and appends every directory size, the directory's own last |
| Day7.ListSubdirs | 2022/day7.rs:57-59 | the loop over the subdirectories adds exactly their total size to the count and appends exactly the sizes of every directory below them |
| Day7.ListOne | 2022/day7.rs:58 | one child of the loop adds its size and its directory sizes |
| Day7.ChooseDir | 2022/day7.rs:105-114 | the selection loop computes PickFrom |
| Day7.PickMeaning | 2022/day7.rs:105-114 | with no negative sizes, part 2 is the smallest size whose removal frees enough, or -1 |
| Day7.ChooseMeaning | 2022/day7.rs:105-114 | part 2 is the smallest fitting directory size of the tree |
| Day7.Solve | 2022/day7.rs:64-115 | part 1 is the sum of the small directory sizes; part 2 is the smallest fitting directory |
| Day7.StepInvariant | 2022/day7.rs:69-100 | a session line keeps the tree well named, only extends it, and keeps the current directory reachable |
| Day7.RunInvariant | 2022/day7.rs:64-100 | after the session, the current directory is still reachable |
| Day7.ListingKeeps | 2022/day7.rs:87-93 | `$ ls` and a listing of an entry already there change nothing |
| Day7.DirAdds | 2022/day7.rs:87-91 | `dir x` adds an empty directory x under the current one |
| Day7.CdEnters | 2022/day7.rs:79-82 | `cd x` succeeds exactly when x is a child and then enters it |
| Day8.BuildGrid | 2022/day8.rs:95-104 | main's loop turns each character into its digit height |
| Day8.ScanRow | 2022/day8.rs:5-21 | one row scan marks exactly the trees visible from the left or right end |
| Day8.ScanColumn | 2022/day8.rs:23-39 | one column scan marks exactly the trees visible from the top or bottom |
| Day8.Part1 | 2022/day8.rs:4-51 | part 1 counts the visible trees, failing where the code panics |
| Day8.BorderVisible | 2022/day8.rs:4-51 | every tree on the border is visible |
| Day8.CountBound | 2022/day8.rs:41-48 | at most every tree is counted |
| Day8.LookEast | 2022/day8.rs:57-63 | the first viewing loop computes the distance to the first tree at least as tall, or to the edge |
| Day8.LookWest | 2022/day8.rs:64-70 | the second viewing loop computes the westward distance |
| Day8.LookSouth | 2022/day8.rs:71-77 | the third viewing loop computes the southward distance, failing at a row too short |
| Day8.LookNorth | 2022/day8.rs:78-84 | the fourth viewing loop computes the northward distance |
| Day8.ScoreAt | 2022/day8.rs:56-85 | a tree's score is the product of its four distances |
| Day8.BestInRow | 2022/day8.rs:55-87 | after row i, the running maximum is the best score so far |
| Day8.Part2 | 2022/day8.rs:53-89 | part 2 is the best score over all trees |
| Day8.ReachMeaning | 2022/day8.rs:57-84 | a viewing distance passes only shorter trees and stops at the first tree at least as tall |
| Day8.BorderScore | 2022/day8.rs:56-85 | a border tree scores 0 |
| Day8.BestMeaning | 2022/day8.rs:53-89 | the best score is at least every tree's score and is some tree's score (or 0) |
| Day8.BestNone | 2022/day8.rs:53-89 | the walk over the trees panics exactly when the walk of one of the visited trees does |
| Day8.BestBounds | 2022/day8.rs:53-89 | a best score that exists is at least every visited score and is one of them unless it is the starting 0 |
| Day8.RowPrefixStep | 2022/day8.rs:85 | visiting one more tree takes the larger of the best so far and its score, or panics with it |
| Day8.Part2Meaning | 2022/day8.rs:53-89 | on a rectangular grid, part 2 never panics and bounds every score |
| Day9Moves.GetMove | 2022/day9_part1.rs:72-83 | get_move reads the direction letter and an i32 count |
| Day9Moves.GetMoveLine | 2022/day9_part2.rs:80-91 | get_move reads back the line of any motion |
| Day9Moves.Shift | 2022/day9_part1.rs:30-62 | a unit step changes exactly one coordinate by one |
| Day9Part1.Distance | 2022/day9_part1.rs:67-69 | head_tail_distance gives the absolute coordinate differences |
| Day9Part1.Rope.constructor | 2022/day9_part1.rs:22-27 | a new rope has head and tail on the given point |
| Day9Part1.Rope.MoveRope | 2022/day9_part1.rs:29-65 | move_rope updates the rope as StepRope does and returns the tail |
| Day9Part1.StepMeaning | 2022/day9_part1.rs:29-65 | the head makes the unit step; the tail stays, or jumps behind the head exactly when it is two away along the axis of the move |
| Day9Part1.StepTouching | 2022/day9_part1.rs:29-65 | after a step from touching knots, head and tail touch again |
| Day9Part1.Solve | 2022/day9_part1.rs:85-99 | the answer is the number of tail positions of Run, failing where the code panics |
| Day9Part1.RepeatProps | 2022/day9_part1.rs:94-96 | repeating a step keeps the knots touching and only adds positions, the current tail's among them |
| Day9Part1.RunMeaning | 2022/day9_part1.rs:85-97 | the start and the final tail position are in the set, and the set grows with the lines read |
| Day9Part2.Follow | 2022/day9_part2.rs:27-51 | following keeps ten knots |
| Day9Part2.Rope.constructor | 2022/day9_part2.rs:21-25 | a new rope has ten knots at the origin |
| Day9Part2.Rope.CalDist | 2022/day9_part2.rs:72-77 | cal_dist is the coordinate difference of two knots |
| Day9Part2.Rope.TraverseKnot | 2022/day9_part2.rs:27-51 | the recursion over the knots updates them as Follow does |
| Day9Part2.Rope.MoveRope | 2022/day9_part2.rs:53-70 | move_rope moves knot 0 and lets the rest follow, returning knot 9 |
| Day9Part2.KnotStepMeaning | 2022/day9_part2.rs:32-46 | a knot more than one away moves one unit toward its leader on each axis where they differ |
| Day9Part2.FollowKeeps | 2022/day9_part2.rs:27-51 | knots before the one being followed do not move |
| Day9Part2.FollowStops | 2022/day9_part2.rs:48-50 | once a knot does not move, no later knot moves |
| Day9Part2.HeadStep | 2022/day9_part2.rs:54-67 | knot 0 makes the unit step |
| Day9Part2.CatchUp | 2022/day9_part2.rs:32-46 | a knot that touched its leader before the leader's step touches it after its own |
| Day9Part2.FollowTouching | 2022/day9_part2.rs:27-51 | following keeps every pair of neighbouring knots touching |
| Day9Part2.StepTouching | 2022/day9_part2.rs:53-70 | a step keeps all neighbouring knots touching |
| Day9Part2.Steps | 2022/day9_part2.rs:102-104 | the count loop moves the rope and records knot 9 as Repeat does |
| Day9Part2.Solve | 2022/day9_part2.rs:93-120 | the answer is the number of positions knot 9 visits |
| Day9Part2.RepeatProps | 2022/day9_part2.rs:102-104 | repeated steps keep the knots touching and only add positions |
| Day9Part2.RunMeaning | 2022/day9_part2.rs:93-105 | the start and knot 9's final position are in the set, and the set grows with the lines read |
| Day10.ParseLine | 2022/day10.rs:65-72 | parse_line recognises noop and addx with an i64 argument |
| Day10.Cpu.constructor | 2022/day10.rs:16-23 | a new CPU has x = 1, cycle 0, no signal and a dark 240-pixel screen |
| Day10.Cpu.Addx | 2022/day10.rs:25-27 | addx adds v to x |
| Day10.Cpu.Draw | 2022/day10.rs:35-40 | draw lights the current pixel when x is within one of cycle % 40, failing past the screen |
| Day10.Cpu.AddSignalStrength | 2022/day10.rs:42-49 | at cycles 20, 60, ..., 220 the signal gains x * cycle |
| Day10.Cpu.OneCycle | 2022/day10.rs:29-33 | one cycle draws, counts and samples, as Tick does |
| Day10.Cpu.FetchCmd | 2022/day10.rs:51-62 | a command runs one or two cycles, then adds to x, as Fetch does |
| Day10.Solve | 2022/day10.rs:74-83 | the signal strength and the screen after all lines are those of Run |
| Day10.RunNoneUp | 2022/day10.rs:78-81 | a panic on an early line makes the whole run fail |
| Day10.DrawMeaning | 2022/day10.rs:35-40 | draw fails only on a lit pixel past the screen, and otherwise changes at most the current pixel |
| Day10.FetchMeaning | 2022/day10.rs:51-62 | noop takes one cycle; addx takes two at the old x and then adds v |
| Day10.ExecMeaning | 2022/day10.rs:74-81 | running commands is the trace of x per cycle: panic-free exactly when no lit pixel falls past the screen |
| Day10.Meaning | 2022/day10.rs:74-91 | the signal is the sum of x * cycle at the sample cycles, and pixel i is lit when the x of cycle i is within one of i % 40 |
| Day11.ParseNumbers | 2022/day11.rs:21-36 | the character loop collects the runs of digits and parses each as u64 |
| Day11.RunsOfDigits | 2022/day11.rs:21-36 | a digit string is one run; a line without digits has none |
| Day11.ValuesMeaning | 2022/day11.rs:21-36 | parsing succeeds exactly when every run fits u64, and then gives each run's value |
| Day11.Gcd | 2022/day11.rs:126-132 | gcd divides both arguments and is positive unless both are zero |
| Day11.GcdGreatest | 2022/day11.rs:126-132 | every common divisor divides gcd |
| Day11.Lcm | 2022/day11.rs:134-136 | lcm is a common multiple, positive for positive arguments |
| Day11.LcmOfDivisors | 2022/day11.rs:85-87 | the fold of lcm is positive and divisible by every monkey's test divisor |
| Day11.NewWorryLevel | 2022/day11.rs:117-124 | the new worry level is reduced below lcm |
| Day11.WorryResidue | 2022/day11.rs:117-124 | reducing modulo lcm keeps divisibility by every divisor of lcm |
| Day11.TakeTurn | 2022/day11.rs:98-109 | one monkey's turn on the arrays does what Turn does and changes nothing but the held items and counts |
| Day11.ThrowAll | 2022/day11.rs:101-108 | throwing a turn's items on the array leaves the held lists exactly as Throw gives them and keeps every monkey's rules |
| Day11.PlayRound | 2022/day11.rs:97-110 | one round on the arrays does what Round does |
| Day11.Solve | 2022/day11.rs:93-115 | solve returns the monkey business of the simulated rounds |
| Day11.Puzzle | 2022/day11.rs:82-91 | part 1 is 20 rounds with relief and part 2 10000 without; part 2 equals the unreduced simulation |
| Day11.ThrowMeaning | 2022/day11.rs:101-109 | throwing appends to each monkey exactly the items sent to it, in order |
| Day11.TurnMeaning | 2022/day11.rs:99-109 | a turn counts the held items for the monkey's id, empties its hands, and conserves the items |
| Day11.RoundsTotal | 2022/day11.rs:97-111 | no round creates or loses items |
| Day11.BusinessMeaning | 2022/day11.rs:113-114 | the answer is the largest product of the counts of two distinct monkeys |
| Day11.ReductionSound | 2022/day11.rs:93-124 | reducing modulo lcm without relief, and relief without reduction, give the counts of the unreduced simulation |
| Day11.PartOneReducesFirst | 2022/day11.rs:102 | part 1 as written sends an item differently from the unreduced simulation (the day 11 finding) |
| Day11.ExampleAsWritten | 2022/day11.rs:102-108 | in the example, the as-written relief throws the item to monkey 1 |
| Day11.ExampleUnreduced | 2022/day11.rs:102-108 | in the example, the unreduced relief throws it to monkey 2 |
| Day12.CanMove | 2022/day12.rs:60-62 | can_move allows climbing at most one level, and any descent |
| Day12.NeighborAdjacent | 2022/day12.rs:45-50 | each of the four directions gives an adjacent in-grid cell |
| Day12.AdjacentNeighbor | 2022/day12.rs:45-50 | every adjacent in-grid cell is reached by some direction |
| Day12.WalkReversed | 2022/day12.rs:102 | a downhill walk of part 2 is an uphill walk of part 1 reversed |
| Day12.Prepare | 2022/day12.rs:20-30 | the rewrite loop levels S to a and E to z and returns the last S and E |
| Day12.ScanRow | 2022/day12.rs:21-29 | one row of the rewrite loop levels its cells and tracks the last S and E |
| Day12.PopMin | 2022/day12.rs:39 | popping the heap takes an entry with the fewest steps |
| Day12.LeastUnique | 2022/day12.rs:39 | any two least entries in the (steps, row, column) order are equal, so the scan pops what the heap pops; with distinct positions they sit at one index |
| Day12.PushesMeaning | 2022/day12.rs:45-56 | the pushed cells are unvisited, in the grid, allowed moves, and distinct |
| Day12.Expand | 2022/day12.rs:45-56 | the direction loop pushes those cells with steps + 1 and marks them visited |
| Day12.Advance | 2022/day12.rs:39-56 | one pop and expansion keeps the search invariant and decreases the measure |
| Day12.Search | 2022/day12.rs:33-57 | a reported step count is the length of a shortest walk to the goal; no answer means the goal is unreachable |
| Day12.Part1 | 2022/day12.rs:11-58 | part 1 is the fewest steps from S to E, climbing at most one level per step |
| Day12.Part2 | 2022/day12.rs:64-109 | part 2 is the fewest steps from E down to any cell of level a |
| Day13.Size | 2022/day13.rs:9-14 | every node has positive size, which bounds the recursion |
| Day13.IsOrdered | 2022/day13.rs:76-121 | is_ordered's loop computes Compare |
| Day13.CompareSelf | 2022/day13.rs:76-121 | a packet compared with itself is undecided |
| Day13.CompareSwap | 2022/day13.rs:76-121 | swapping the packets flips the verdict |
| Day13.ShorterFirst | 2022/day13.rs:78-80 | when all shared positions are undecided and the left list is shorter, the pair is in order |
| Day13.LongerFirst | 2022/day13.rs:81-83 | when all shared positions are undecided and the right list is shorter, the pair is out of order |
| Day13.FirstDecided | 2022/day13.rs:85-117 | the first decided position gives the verdict |
| Day13.Items | 2022/day13.rs:44-73 | the reading position only moves forward and stays within the text |
| Day13.Parser.constructor | 2022/day13.rs:32-34 | a new parser starts at index 0 |
| Day13.Parser.Parse | 2022/day13.rs:36-42 | parse starts after the opening bracket and yields the list Packet reads |
| Day13.Parser.Traverse | 2022/day13.rs:44-73 | traverse collects the children Items reads and moves idx to where Items stops, failing where the code panics |
| Day13.DigitRun | 2022/day13.rs:57-65 | a digit run parses as the i32 value of its digits |
| Day13.RoundTrip | 2022/day13.rs:36-73 | parsing the text of a well-formed list packet gives back the packet |
| Day13.PairLines | 2022/day13.rs:128-140 | the pairing loop pairs the trimmed non-blank lines two by two |
| Day13.PairsOf | 2022/day13.rs:128-140 | an odd last line is dropped |
| Day13.Judge | 2022/day13.rs:145-147 | parsing and comparing one pair gives its verdict |
| Day13.ScorePairs | 2022/day13.rs:144-153 | the scoring loop adds the 1-based indices of the pairs in order |
| Day13.SolvePart1 | 2022/day13.rs:123-156 | solve_part1 computes Part1 |
| Day13.ScoreBound | 2022/day13.rs:142-153 | the score lies between 0 and n(n+1)/2, so it fits i32 for up to 65535 pairs |
| Day13.VerdictOfShown | 2022/day13.rs:145-147 | parsing two printed packets and comparing them gives Compare of the packets |

## Left out

- The file reads in every `main` and `println!`/`print!` are left out. Each
  part returns its answer instead of printing it. Day 10's 40-column printing
  of the screen is not modelled; the screen is returned as a sequence.
- The operator trait impls of `2022/bigint.rs` (lines 312-382), `partial_cmp`
  and `FromStr` only delegate to `add`, `sub`, `mul`, `div`, `modulo`, `cmp`
  and `from_str`, which are modelled.
- Limbs are naturals below 10^9 rather than `u32`. The `u64` intermediate sums
  of `add_unsigned`, `sub_unsigned` and `mul` never overflow on such limbs, so
  nothing is lost.
- BigDiv.DivRem: the quotient counter `q` is an unbounded natural. In the
  source it is a `u32`. On the dividends of the div_rem finding the count
  passes the base after 10^9 passes, then overflows `u32` at 2^32 passes (a
  panic in a debug build), long before the roughly 1.4 * 10^17 passes the
  loop needs. The model lets the loop finish with the unbounded count.
  DivRemTwoLimbs therefore shows the limb the code would push without that
  overflow.
- BigDiv.Modulo: requires Ends(a, abs(b)): a negative dividend, a divisor
  of non-zero magnitude, or a divisor of magnitude zero with more limbs than
  the dividend without its zero top limbs. On the last kind the call returns
  (5 modulo limbs [0, 0] is 5, see ResidueZeroMagnitude). On every other
  input, such as 5 modulo 0, a non-negative dividend modulo "-0", or [5, 0]
  modulo [0], the source's loop subtracts zero forever and never returns.
  ZeroDivisorSpins proves that every round leaves the magnitude unchanged and
  the loop condition true. A call that never returns has no result to model.
- BigDiv.DivRem: requires the divisor to be `zero()` (the `Err` the panic
  becomes) or of non-zero magnitude. The zero check compares with `zero()`
  structurally, so the divisor "-0" (limbs [0], negative) passes it, and the
  inner loop then subtracts zero forever; NegativeZeroDivisor and
  ZeroDivisorSpins prove this (the div_rem zero-divisor finding). Untrimmed
  zero divisors, which mul leaves, are excluded as well. For the divisor
  [0, 0]:
  - a one-limb dividend returns early;
  - a longer dividend with a non-zero limb above the lowest spins
    (ZeroPairSpins);
  - any other dividend, such as [5, 0], which `0 * 10^9 + 5` gives, returns
    one quotient limb 1 per dividend limb and its lowest limb as the
    remainder (ZeroPairReturns).
  None of these outcomes, nor those of longer all-zero divisors, is part of
  QuotientRemainder.
- BigDiv.Div: the same requirement and reason as BigDiv.DivRem, since div
  makes the same structural zero check and then calls div_rem.
- Machine-integer overflow of the puzzle answers and coordinates is not
  modelled. This covers the `i32` sums of days 1, 2, 4 and 7, the `usize`
  products of day 8, the `i32` coordinates of day 9, the `i64` register of
  day 10 and the `u64` worry levels of day 11. Parsing does check each type's
  range. For day 13, ScoreBound shows that the `i32` answer fits for up to
  65535 pairs.
- Day2.Part1: requires every line to have two words. The source indexes
  `text[1]` and panics otherwise; that panic is not modelled as an error
  result.
- Day2.Part2: same requirement and reason as Day2.Part1.
- Day3.Part1: requires lines of ASCII letters only. For other bytes the
  source's `c - b'A' + 26` underflows or indexes past the 52 slots; that panic
  is not modelled.
- Day3.Part2: same requirement and reason as Day3.Part1.
- Day7: the hash maps are Dafny maps. The walks pick keys in an unspecified
  order, as `HashMap` iteration does. Only order-independent sums and the
  multiset of sizes are stated.
- Day11: `parse_monkeys` is left out; it reads the file and dispatches on the
  line prefix. The monkeys are a parameter of `Puzzle`, and `WellFormed` states
  what its indexing panics would otherwise exclude: every id and throw target
  below the number of monkeys, and positive divisors. `parse_numbers` is
  modelled.
- Day12: the `BinaryHeap` of `Reverse((steps, pos))` is a sequence whose
  minimum is found by a linear scan in the same (steps, row, column) order.
  LeastUnique shows that any two least entries in that order are equal, so
  the scan pops the entry that `BinaryHeap::pop` pops. A cell is marked
  visited when it is pushed, so no two entries share a position and the
  index is unique too; the search invariant does not carry that fact. The
  heap's internal layout is not modelled.
- Day12.Part1: requires a rectangular grid with no zero byte. The source reads
  `grid[0].len()` for every row, and `to - 1` on a zero byte underflows.
- Day12.Part2: same requirement as Day12.Part1.
- Day13: `solve_part2` only returns 0 and is not modelled. `Box` allocation
  of nodes becomes a plain datatype.
- Day13.Items: the digit case is stated through the digit values, not through
  `parse::<i32>`. DigitRun proves the two agree, and Traverse calls the parse
  as the code does.

## Findings

| source | as written | input that shows it | evidently intended | confidence | as-written member | corrected member |
|---|---|---|---|---|---|---|
| 2022/bigint.rs:197-213 | for a negative dividend the loop never runs (a negative number is below abs(b)), and `abs_other.sub(result)` returns abs(b) + abs(a) | -7 modulo 3 gives 10 | the non-negative residue, 2 | not executed | BigDiv.ResidueMinusSeven | BigCorrected.FlooredResidueValue |
| 2022/bigint.rs:252-291 | the shifted remainder is `remainder * from_u64(BASE) + digit`; mul does not trim, so 0 * 10^9 keeps a zero top limb, cmp then ranks a small remainder above the divisor, and the inner loop subtracts past zero | 1000000005 / 7 (limbs [5, 1] by [7]): the first quotient count passes 10^9, and the `u32` counter overflows at 2^32 before the loop ends | quotient 142857143, remainder 4 | not executed | BigDiv.DivRemTwoLimbs | BigCorrected.ExactDivRem |
| 2022/bigint.rs:252-274 | the zero check compares the divisor with `zero()` structurally | the divisor "-0" (limbs [0], negative), as from_str returns it: the check passes, and for any dividend the inner loop subtracts zero forever | refuse every divisor of zero magnitude | not executed | BigDiv.NegativeZeroDivisor | BigCorrected.ExactByZero |
| 2022/bigint.rs:61-71 | the digit string is cut into 9-digit chunks from the left | "1000000000" parses to limbs [0, 100000000], the value 10^17 | chunks cut from the right, giving limbs [0, 1] | not executed | BigText.TenDigits | BigText.ParseAlignedValue |
| 2022/bigint.rs:110-155 | sub_unsigned decides its swap with the signed cmp, so with a negative second operand it never swaps and the borrow loop drops the final borrow | -5 + 0 gives 999999995 | -5 | not executed | BigNum.SumZeroNegativeFive | BigCorrected.SumByMagnitudeExact |
| 2022/day11.rs:102 | part 1 reduces the worry level modulo the lcm before dividing by 3, and division does not commute with that reduction | one monkey holding 7 with operation +0 and divisor 5 (lcm 5): 7 mod 5 = 2, 2 / 3 = 0, thrown as divisible; unreduced, 7 / 3 = 2 is not divisible | no reduction in part 1 (relief alone), as the unreduced simulation does | not executed | Day11.PartOneReducesFirst | Day11.ReductionSound |
