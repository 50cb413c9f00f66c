# Advent of Code 2025, days 1 to 8, in Dafny

This project models the eight puzzle solvers of the repository (`src/bin/day01.rs` to
`src/bin/day08.rs`) and proves what each part computes. Each solver gets one module, `Day01` to
`Day08`. Three small modules hold what the solvers share:

- `Wrappers`: the `Option` type.
- `Text`: Rust's `str::parse::<i64>`, `trim`, `split`, `split_once` and `split_whitespace` on
  `seq<char>`, plus a decimal printer used to state round trips.
- `Sorting`: an in-place insertion sort on an `array` by an integer key. It stands in for
  `sort_unstable_by_key`, `sort_unstable` and `sort_unstable_by`.

The puzzle input reaches each part as its sequence of lines. Day 2 gets the one line it splits
on commas, and day 4 gets the character grid. Where the Rust code aborts (`panic!`, `expect`,
`todo!`, an out-of-bounds index, a `usize` underflow), the model has a `requires` clause. It
models the error paths the code does handle (`parse().ok()?`, `filter_map`, `split_once`
returning `None`) with `Option`.

What each day proves:

- **Day 1 (dial).**
  - `TurnDialCounter` counts, in closed form, the clicks that point the dial at 0 during a
    rotation.
  - These equal the clicks counted one at a time by the reference function `Clicks`.
  - Both parts are loops proved equal to folds over the rotations.
- **Day 2 (invalid ids).**
  - `IsTwice` holds exactly when the decimal string is some block written twice.
  - The rotation test `IsPeriodic` (the string occurs inside its own doubling with the two end
    characters cut off) holds exactly when the string is a block repeated at least twice. The
    proof goes through rotation invariance and the gcd of two periods.
- **Day 3 (batteries).** The greedy choice of the leftmost largest digit in a shrinking window
  gives the largest `n`-digit number that can be picked from the bank in order.
- **Day 4 (paper rolls).**
  - `Grid`, a class holding the grid, marks the removable rolls in place.
  - One round is the pure function `Erode`. It removes exactly the rolls with fewer than four
    rolled neighbours.
  - Part 2 returns the number of rolls removed before the grid stops changing. That is the
    drop in the roll count.
- **Day 5 (fresh ingredients).** After sorting by start, the sweep in `merge_and_sum_ranges`
  returns the size of the union of the ranges.
- **Day 6 (worksheet).**
  - A `ColumnIter` class models the `Columns` iterator over per-row cursors.
  - Transposing a rectangular grid twice gives it back.
  - Both parts are the sum of the column problems.
  - Part 2 cuts the columns into groups at the columns that do not parse.
- **Day 7 (tachyon beams).**
  - The beam set after each line is the image of the set before it under the landing rule.
  - Part 1 counts the splitters hit.
  - In part 2 the total number of timelines grows by the weight of every splitter hit, and the
    count map is the one that rule defines.
- **Day 8 (junction boxes).**
  - Parsing inverts printing.
  - The edge list is a sorted permutation of all pairs.
  - The depth-first search of part 1 returns the sizes of circuits that partition the boxes.
    Each circuit is closed under the chosen edges and reachable from its first box.
  - The relabelling loop of part 2 stops at the edge that brings the number of groups from two
    to one.

## Model

| member | source | states |
|---|---|---|
| Text.ParseIntToDecimal | src/bin/day01.rs:8 | parsing the decimal text of any integer gives that integer back. |
| Text.ParseIntSyntax | src/bin/day01.rs:8 | a string that parses ends in a digit, has digits after its first position, and starts with a digit or a sign. |
| Text.NatToDecimal | src/bin/day02.rs:30 | `to_string` of a natural number is a non-empty digit string with that value and no leading zero. |
| Text.IntToDecimalChars | src/bin/day02.rs:30 | the decimal text of an integer is digits with at most a leading minus sign. |
| Text.TrimStart | src/bin/day02.rs:26 | the result is a suffix of the input; the part it drops is all whitespace and the result does not start with whitespace. |
| Text.TrimEnd | src/bin/day02.rs:26 | the result is a prefix of the input; the part it drops is all whitespace and the result does not end with whitespace. |
| Text.TrimEnds | src/bin/day02.rs:26 | a non-empty trimmed string starts and ends with non-whitespace. |
| Text.TrimOfNoSpace | src/bin/day02.rs:26 | trimming a string without whitespace leaves it unchanged. |
| Text.Split | src/bin/day02.rs:21 | `split` yields at least one piece, no piece contains the separator, and joining the pieces with the separator gives back the input. |
| Text.SplitCons | src/bin/day02.rs:21 | splitting `a + sep + rest`, where `a` has no separator, yields `a` followed by the pieces of `rest`. |
| Text.SplitOfNoSep | src/bin/day02.rs:21 | a string without the separator splits into itself alone. |
| Text.SplitThree | src/bin/day08.rs:17 | three separator-free fields joined by the separator split back into those three fields. |
| Text.SplitOnce | src/bin/day02.rs:25 | `split_once` fails exactly when the separator is absent; otherwise it cuts at the first separator, reassembling the input. |
| Text.SplitOnceAt | src/bin/day05.rs:30 | a separator not occurring before it is exactly where `split_once` cuts. |
| Text.SplitWhitespace | src/bin/day06.rs:26 | every token is non-empty and whitespace-free, and the tokens concatenated are the input with its whitespace removed. |
| Text.NonSpaceAppend | src/bin/day06.rs:26 | removing whitespace distributes over concatenation. |
| Text.NonSpaceOfNoSpace | src/bin/day06.rs:26 | removing whitespace from a whitespace-free string leaves it unchanged. |
| Text.IndexOf | src/bin/day07.rs:8 | `find` returns an index holding the character with no earlier occurrence. |
| Sorting.SortByKey | src/bin/day05.rs:5 | the array ends sorted by the key and is a permutation of its old contents. |
| Sorting.InsertAt | src/bin/day05.rs:5 | inserting element `i` into the sorted prefix keeps a sorted prefix one longer, a permutation, and the suffix unchanged. |
| Sorting.SwapDown | src/bin/day05.rs:5 | one swap of neighbouring cells, a permutation. |
| Day01.ParseLine | src/bin/day01.rs:3-17 | an empty line or a tail that is not an integer gives `None`; a rotation needs a direction character and at least one more character. |
| Day01.ParseLineOfRotation | src/bin/day01.rs:3-17 | a direction followed by a decimal number parses to that number, negated unless the direction is `R`. |
| Day01.TurnDial | src/bin/day01.rs:19-22 | the new position is in 0..99 and congruent to dial plus change modulo 100. |
| Day01.TruncRem100 | src/bin/day01.rs:27 | Rust's `%` by 100: congruent to the input, of the input's sign, and of absolute value below 100. |
| Day01.TurnDialCounter | src/bin/day01.rs:24-44 | the position agrees with `TurnDial`; the counter is the full revolutions plus at most one, and 0 for no change. |
| Day01.ClicksRight | src/bin/day01.rs:31-34 | turning right by `steps` clicks from `dial` hits 0 `(dial + steps) / 100` times. |
| Day01.ClicksLeft | src/bin/day01.rs:35-40 | turning left hits 0 `steps / 100` times from 0, and `(100 - dial + steps) / 100` times otherwise. |
| Day01.CounterIsZeroClicks | src/bin/day01.rs:24-44 | the counter of `turn_dial_counter` equals the number of single clicks that land on 0. |
| Day01.Rotations | src/bin/day01.rs:49-50 | one rotation per line. |
| Day01.Part1 | src/bin/day01.rs:46-60 | the password is the number of rotations, applied from 50, that end on 0. |
| Day01.Part2 | src/bin/day01.rs:62-75 | the password is the total number of clicks, over all rotations from 50, that land on 0. |
| Day02.RepeatTwice | src/bin/day02.rs:9-18 | a block repeated twice is the block followed by itself. |
| Day02.RepeatLength | src/bin/day02.rs:1-7 | a block repeated `k` times has `k` times its length. |
| Day02.RepeatCons | src/bin/day02.rs:1-7 | a block repeated `k >= 1` times is the block followed by `k - 1` repetitions. |
| Day02.TwiceIffRepeat | src/bin/day02.rs:9-18 | the test fails on odd lengths and holds exactly when the string is some block written twice. |
| Day02.IsPeriodic | src/bin/day02.rs:1-7 | strings of length at most one are never periodic. |
| Day02.RotInvariantFull | src/bin/day02.rs:1-7 | every string is invariant under rotation by its length. |
| Day02.RotInvariantSub | src/bin/day02.rs:1-7 | invariance under rotation by `p` and by `q <= p` gives invariance under rotation by `p - q`. |
| Day02.GcdProperties | src/bin/day02.rs:1-7 | invariance under rotation by `a` and by `b` gives invariance under rotation by their gcd, a common divisor. |
| Day02.PrefixRepeats | src/bin/day02.rs:1-7 | with a rotation period `g`, each prefix whose length is a multiple of `g` is the first `g` characters repeated, more than once when longer than `g`. |
| Day02.PeriodicIffRepetition | src/bin/day02.rs:1-7 | the doubled-string test holds exactly when the string is a block repeated at least twice. |
| Day02.PeriodicIsRepetition | src/bin/day02.rs:1-7 | a string found inside its trimmed doubling is a block repeated at least twice. |
| Day02.RepetitionIsPeriodic | src/bin/day02.rs:1-7 | a block repeated at least twice is found inside its trimmed doubling. |
| Day02.ShiftOccurs | src/bin/day02.rs:6 | a string that commutes with one of its proper prefixes occurs at the matching shift inside its trimmed doubling. |
| Day02.TwiceImpliesPeriodic | src/bin/day02.rs:1-18 | every id invalid for part 1 is also invalid for part 2. |
| Day02.RangeSumBounds | src/bin/day02.rs:29-34 | a range without invalid ids sums to 0, and a range of non-negative ids sums to at least 0. |
| Day02.RangeSumSplit | src/bin/day02.rs:29-34 | the sum over `lo..=hi` splits at any point into the sums of the two subranges. |
| Day02.SumRange | src/bin/day02.rs:29-34 | the loop over `num1..=num2` adds exactly the invalid ids of the range. |
| Day02.SumPiece | src/bin/day02.rs:25-35 | one comma-separated piece contributes its range's invalid ids when it has a `-`, and nothing otherwise. |
| Day02.SumInvalid | src/bin/day02.rs:21-38 | the sum is the total over all comma-separated pieces. |
| Day02.Part1 | src/bin/day02.rs:20-39 | the sum of all ids in the ranges whose decimal form is a block written twice. |
| Day02.Part2 | src/bin/day02.rs:41-60 | the sum of all ids in the ranges whose decimal form passes the periodicity test. |
| Day03.Digits | src/bin/day03.rs:2 | the digit values of the line, each below 10, no more than its characters. |
| Day03.DigitsAppend | src/bin/day03.rs:2 | the digits of a concatenation are the concatenated digits. |
| Day03.DigitsSkipNonDigit | src/bin/day03.rs:2 | a character that is not a digit contributes nothing. |
| Day03.ValueBound | src/bin/day03.rs:19 | a number built from `k` digits is below `10^k`. |
| Day03.ValueCons | src/bin/day03.rs:19 | the leading digit contributes its value times the power of ten of the remaining length. |
| Day03.FirstDigitDecides | src/bin/day03.rs:13-20 | among equally long digit sequences a larger first digit gives a larger number, and an equal first digit defers to the rest. |
| Day03.PickTail | src/bin/day03.rs:20 | dropping the first index of an in-order pick leaves a pick starting after it. |
| Day03.PickIncreasing | src/bin/day03.rs:20 | the indices of a pick increase by at least the distance between their positions. |
| Day03.PickRoom | src/bin/day03.rs:8-9 | a pick of `k` digits starting at index `p` needs `p + k` digits in the bank. |
| Day03.Select | src/bin/day03.rs:19 | one chosen digit per index; `SelectTail` and `SelectAppend` relate it to the number built. |
| Day03.LeftmostMax | src/bin/day03.rs:13-18 | the index found lies in the window; `LeftmostMaxIsMax` states that it is the leftmost maximum. |
| Day03.LeftmostMaxIsMax | src/bin/day03.rs:13-18 | `rev().max_by_key` finds the largest digit of the window, and no earlier digit is as large. |
| Day03.Greedy | src/bin/day03.rs:7-24 | the greedy choice picks exactly `k` indices; `GreedyIsPick` and `GreedyIsMaximal` state that it is an optimal pick. |
| Day03.GreedyIsPick | src/bin/day03.rs:7-24 | the greedy indices are an in-order pick. |
| Day03.GreedyHead | src/bin/day03.rs:13-18 | no pick starts with a larger digit than the greedy one, nor with an equal digit further left. |
| Day03.GreedyIsMaximal | src/bin/day03.rs:7-24 | no in-order pick of `k` digits forms a larger number than the greedy pick. |
| Day03.BankValueIsMaximal | src/bin/day03.rs:1-27 | the joltage of a bank is at least the value of every in-order pick of `n` digits. |
| Day03.BankValueIsPicked | src/bin/day03.rs:1-27 | the joltage is the value of an actual pick of `n` digits, and below `10^n`. |
| Day03.GreedyStep | src/bin/day03.rs:19-20 | one round picks the window's leftmost maximum and continues after it. |
| Day03.SelectAppend | src/bin/day03.rs:19 | appending a digit multiplies the number by ten and adds it. |
| Day03.SearchWindow | src/bin/day03.rs:11-18 | the search succeeds exactly on a non-empty window and then returns its leftmost maximum. |
| Day03.ChooseDigit | src/bin/day03.rs:8-23 | an empty window means the bank's value is 0 (the early return); otherwise the round keeps the loop invariant. |
| Day03.ParseAdvance | src/bin/day03.rs:19-20 | taking the window's leftmost maximum keeps the loop invariant one round further. |
| Day03.ParseWindow | src/bin/day03.rs:8-11 | the window bounds are in order, and an empty window happens only when the value is 0. |
| Day03.ParseDone | src/bin/day03.rs:26 | after `n` rounds the result is the bank's joltage. |
| Day03.ParseBankN | src/bin/day03.rs:1-27 | the result is the largest number made of `n` of the bank's digits in order. |
| Day03.SumBanks | src/bin/day03.rs:29-35 | the sum of the lines' joltages. |
| Day03.Part1 | src/bin/day03.rs:29-31 | the sum of the best two-digit joltages. |
| Day03.Part2 | src/bin/day03.rs:33-35 | the sum of the best twelve-digit joltages. |
| Day04.IsRollAfterWrite | src/bin/day04.rs:3-13 | writing one cell changes whether only that cell holds a roll. |
| Day04.NeighbourCountExplicit | src/bin/day04.rs:15-28 | the count is the eight neighbours' roll indicators, out-of-grid cells counting as empty. |
| Day04.NeighbourCountBound | src/bin/day04.rs:15-28 | at most eight neighbours. |
| Day04.NeighbourCountIgnoresCentre | src/bin/day04.rs:19-21 | the centre cell never counts. |
| Day04.CheckSurrounding | src/bin/day04.rs:15-28 | the two nested loops count the rolled neighbours. |
| Day04.RowCountPastWidth | src/bin/day04.rs:53-54 | cells past the first row's width are never removable. |
| Day04.Erode | src/bin/day04.rs:68-70 | one round keeps every row's length. |
| Day04.ErodeChanges | src/bin/day04.rs:55-69 | a cell changes exactly when it is a removable roll, and then from `@` to `x`. |
| Day04.ErodeRowRolls | src/bin/day04.rs:53-70 | in each row, the rolls after a round plus the removed rolls are the rolls before it. |
| Day04.ErodeGridRolls | src/bin/day04.rs:53-70 | the same holds over the first `m` rows. |
| Day04.ErodeRolls | src/bin/day04.rs:46-72 | a round removes exactly the removable rolls from the roll count. |
| Day04.NoneRemovableRow | src/bin/day04.rs:61 | a row with no removable count has no removable cell. |
| Day04.NoneRemovableGrid | src/bin/day04.rs:61 | a grid with no removable count has no removable cell. |
| Day04.ErodeFixpoint | src/bin/day04.rs:84-86 | a grid with nothing removable is a fixpoint of the round. |
| Day04.Settled | src/bin/day04.rs:82-88 | the grid the rounds settle on has nothing removable. |
| Day04.TotalRemovedIsDrop | src/bin/day04.rs:79-90 | the removed total is the drop in the roll count from the start to the settled grid. |
| Day04.CountRolls | src/bin/day04.rs:30-44 | the number of non-`.` cells with fewer than four rolled neighbours. |
| Day04.Grid.constructor | src/bin/day04.rs:80 | the grid holds the given cells. |
| Day04.Grid.CountRollsEdit | src/bin/day04.rs:46-72 | the grid becomes one eroded round of its old cells, and the count is the old removable rolls. |
| Day04.Grid.MarkAll | src/bin/day04.rs:68-70 | exactly the listed cells become `x`, and row lengths are kept. |
| Day04.ScanStep | src/bin/day04.rs:55-64 | one cell of the scan keeps the list equal to the removable cells scanned so far. |
| Day04.FindRemovable | src/bin/day04.rs:53-66 | the list holds exactly the removable cells, and the count is their number. |
| Day04.Part1 | src/bin/day04.rs:74-77 | the number of accessible rolls. |
| Day04.Part2 | src/bin/day04.rs:79-90 | the rolls removed until nothing is removable, which is the drop in the roll count. |
| Day05.ParseRange | src/bin/day05.rs:29-32 | a line gives a range exactly when it has a `-` and both sides parse as integers. |
| Day05.ParseRangeOfText | src/bin/day05.rs:29-32 | a range printed as `lo-hi` parses back to itself. |
| Day05.ParseRanges | src/bin/day05.rs:26-34 | every range comes from a line, and every line that parses contributes its range. |
| Day05.FirstBreak | src/bin/day05.rs:37 | the first blank line at or after `from`, or none. |
| Day05.Blocks | src/bin/day05.rs:37 | without a blank line everything is ranges; otherwise the lines are the ranges block, the blank line, then the ids block. |
| Day05.IntervalMembers | src/bin/day05.rs:44 | the interval holds exactly the integers between its ends. |
| Day05.IntervalSize | src/bin/day05.rs:15 | an inclusive interval holds `hi - lo + 1` integers, or none when reversed. |
| Day05.IntervalMerge | src/bin/day05.rs:12-13 | an overlapping range extends the current interval to the larger end. |
| Day05.CloseGroup | src/bin/day05.rs:14-15 | closing a group adds its length to the counted size, and everything counted lies below the next start. |
| Day05.UnionMembers | src/bin/day05.rs:44 | the union holds exactly the ids contained in some range. |
| Day05.UnionOfPermutation | src/bin/day05.rs:5 | sorting does not change the union. |
| Day05.SweepFromIsUnion | src/bin/day05.rs:11-21 | from any point of the loop, the sweep's total equals the union's size. |
| Day05.SweepMergeStep | src/bin/day05.rs:12-13 | the invariant survives the overlapping branch. |
| Day05.SweepCloseStep | src/bin/day05.rs:14-18 | the invariant survives the disjoint branch. |
| Day05.SweepDone | src/bin/day05.rs:21 | the final addition gives the union's size. |
| Day05.SweepMerge | src/bin/day05.rs:12-13 | the overlapping branch covers the union of the ranges seen. |
| Day05.SweepClose | src/bin/day05.rs:14-18 | the disjoint branch covers the union of the ranges seen. |
| Day05.UnionSnoc | src/bin/day05.rs:11 | one more range adds its interval to the union. |
| Day05.SweepIsUnionSize | src/bin/day05.rs:4-24 | on sorted well-formed ranges, the sweep is the number of ids in their union. |
| Day05.MergeAndSum | src/bin/day05.rs:4-24 | the array ends sorted by start as a permutation, and the result is the sweep; for well-formed ranges, the size of their union. |
| Day05.UnionBounds | src/bin/day05.rs:4-24 | the union is at least as large as each range and at most the sum of their lengths. |
| Day05.CountFresh | src/bin/day05.rs:41-45 | at most one per id line; which ids count is stated through `InSomeRangeIsUnion`. |
| Day05.InSomeRangeIsUnion | src/bin/day05.rs:44 | an id is fresh exactly when it is in the union of the ranges. |
| Day05.Part1 | src/bin/day05.rs:36-46 | at most one fresh id per line of the ids block, and none without a blank line. |
| Day05.Part2 | src/bin/day05.rs:48-52 | the result is the sweep over a sorted permutation of the ranges block; for well-formed ranges, the number of ids in their union. |
| Day05.RangeArray | src/bin/day05.rs:50 | a fresh array holding the parsed ranges. |
| Day06.MinLen | src/bin/day06.rs:17-19 | the length of the shortest row. |
| Day06.Column | src/bin/day06.rs:17-19 | column `k` holds the `k`-th item of every row. |
| Day06.Columns | src/bin/day06.rs:13-20 | one column per position up to the limit and the shortest row, each holding that item of every row. |
| Day06.ColumnsInvolution | src/bin/day06.rs:36-38 | transposing a rectangular grid twice gives it back. |
| Day06.FirstExhausted | src/bin/day06.rs:18 | the first row whose cursor is at its end, which stops `collect` into `Option`. |
| Day06.ColumnIter.constructor | src/bin/day06.rs:8-10 | every cursor starts at the beginning of its row. |
| Day06.ColumnIter.Next | src/bin/day06.rs:17-19 | a column comes back exactly when no row is exhausted; the cursors before the first exhausted row advance. |
| Day06.CollectColumns | src/bin/day06.rs:38-40 | pulling columns until the limit or the first exhausted row gives the transposition. |
| Day06.Combine | src/bin/day06.rs:41-44 | the definition `SumProblems` is built from: `+` sums the numbers, every other operator multiplies them. Its properties are `CombineAppend` and `CombinePermutation`. |
| Day06.CombineAppend | src/bin/day06.rs:42-43 | a problem's numbers split in two combine to the halves' results added under `+` and multiplied otherwise. |
| Day06.CombineRemove | src/bin/day06.rs:42-43 | taking out one number leaves the rest's result, to which that number is added or multiplied back. |
| Day06.CombinePermutation | src/bin/day06.rs:42-43 | the result of a problem does not depend on the order of its numbers. |
| Day06.SumProblemsShift | src/bin/day06.rs:40-45 | the sum over problems splits off its first problem. |
| Day06.ZipCombineIsSum | src/bin/day06.rs:40-45 | `zip` stops at the shorter side, so the total covers the first `min` problems. |
| Day06.Numbers | src/bin/day06.rs:30-32 | at most one number per token. |
| Day06.NumbersOfDecimals | src/bin/day06.rs:30-32 | the tokens of printed numbers parse back to those numbers. |
| Day06.NumberRows | src/bin/day06.rs:28-34 | one row of numbers per line. |
| Day06.Part1 | src/bin/day06.rs:22-46 | the sum, over operators and columns of numbers, of each column combined by its operator. |
| Day06.ZipEmptyGroups | src/bin/day06.rs:40-45 | with only empty columns, every `*` problem counts 1 and every `+` problem 0. |
| Day06.Part1OperatorsOnly | src/bin/day06.rs:22-46 | an input of just the operator line gives the number of non-`+` operators. |
| Day06.BlankColumn | src/bin/day06.rs:63-64 | a blank column does not parse, so it separates problems. |
| Day06.Groups | src/bin/day06.rs:68-70 | one group more than separators, holding the parsed values in order; `UnsplitGroups` and `GroupsOfUnsplit` fix the group boundaries. |
| Day06.Somes | src/bin/day06.rs:70 | a group as the successful column results it came from, one result per value. |
| Day06.UnsplitGroups | src/bin/day06.rs:68-70 | putting the groups back with one failed column between neighbours gives the column results back, so group `k` is exactly the values between failure `k` and failure `k + 1`. |
| Day06.GroupsOfSomes | src/bin/day06.rs:68-70 | successful results before a tail run on into the tail's first group. |
| Day06.GroupsOfUnsplit | src/bin/day06.rs:68-70 | cutting the column results built from any non-empty list of groups gives that list back. |
| Day06.ColumnValues | src/bin/day06.rs:58-66 | one value per column of the shortest row: the trimmed column parsed. |
| Day06.Part2 | src/bin/day06.rs:48-78 | the sum, over operators and groups of column numbers, of each group combined by its operator. |
| Day07.AllLandAdd | src/bin/day07.rs:16-27 | one more landing beam keeps the set landing. |
| Day07.Targets | src/bin/day07.rs:17-25 | a beam continues on `.` and splits to its two neighbours on `^`. |
| Day07.StepSet | src/bin/day07.rs:14-27 | the next beam set is exactly the targets of the current beams. |
| Day07.StepSetAdd | src/bin/day07.rs:14-27 | one more beam adds its own targets. |
| Day07.SplitSetAdd | src/bin/day07.rs:21-25 | one more beam adds one split when it is on a splitter. |
| Day07.AddTargets | src/bin/day07.rs:18-23 | the buffer inserts are the beam's targets. |
| Day07.DrainRow | src/bin/day07.rs:14-27 | draining leaves the active set empty, the buffer gains the next beams, and the count is the splitters hit. |
| Day07.Part1 | src/bin/day07.rs:3-34 | the total number of splitters hit by the beam sets line by line. |
| Day07.Bump | src/bin/day07.rs:51 | `entry(q).or_insert(0) += c` adds `q` to the keys. |
| Day07.BumpTotal | src/bin/day07.rs:51 | it adds `c` to the total. |
| Day07.AddFlow | src/bin/day07.rs:47-58 | the buffer's new keys are the targets of the drained beams. |
| Day07.AddFlowStep | src/bin/day07.rs:49-57 | one drained beam adds its count to each of its targets. |
| Day07.DrainStep | src/bin/day07.rs:49-57 | draining one beam is one bump on `.` and two on `^`. |
| Day07.AddFlowNone | src/bin/day07.rs:47-49 | draining nothing leaves the buffer. |
| Day07.AddFlowTotal | src/bin/day07.rs:47-58 | the buffer's total grows by the spread counts of the drained beams. |
| Day07.SpreadTotal | src/bin/day07.rs:50-56 | a beam on `.` passes its count on once, on `^` twice. |
| Day07.StepMap | src/bin/day07.rs:46-61 | the next count map's keys are the next beam set. |
| Day07.StepMapTotal | src/bin/day07.rs:46-61 | each line adds the counts of the beams that hit a splitter. |
| Day07.DrainRowCounts | src/bin/day07.rs:47-58 | draining empties the active map and adds its flow to the buffer. |
| Day07.FinalMapKeys | src/bin/day07.rs:44-62 | the final map's keys are the final beam set of part 1. |
| Day07.FinalMapGrows | src/bin/day07.rs:44-62 | timelines never disappear. |
| Day07.StartCounts | src/bin/day07.rs:45 | one timeline at the start column. |
| Day07.SumValues | src/bin/day07.rs:64 | the sum of the map's values. |
| Day07.Part2 | src/bin/day07.rs:36-65 | the total of the final count map, at least one. |
| Day08.FieldValues | src/bin/day08.rs:18 | one parse result per field. |
| Day08.Collect | src/bin/day08.rs:19 | collecting into `Result` keeps every value. |
| Day08.CollectMeaning | src/bin/day08.rs:19 | the collection succeeds exactly when every field does, and then holds their values. |
| Day08.CollectExact | src/bin/day08.rs:19 | successful fields collect to their values. |
| Day08.ParseFields | src/bin/day08.rs:16-19 | one value per field; `ParseFieldsMeaning` states when it succeeds and with which values. |
| Day08.ParseFieldsMeaning | src/bin/day08.rs:16-19 | the fields parse exactly when each trimmed field is an integer, and then to those integers. |
| Day08.ParseCoordinateMeaning | src/bin/day08.rs:15-26 | a line parses exactly when every comma field trims to an integer, and then the first three are x, y and z. |
| Day08.DecimalField | src/bin/day08.rs:16-19 | a printed integer has no comma, is its own trim, and parses back. |
| Day08.SplitFormat | src/bin/day08.rs:17 | the printed coordinate splits into its three printed fields. |
| Day08.FieldsOfThree | src/bin/day08.rs:16-19 | three integer fields parse to those three integers. |
| Day08.FieldsFormat | src/bin/day08.rs:16-19 | the printed fields parse back to the coordinates. |
| Day08.ParseFormat | src/bin/day08.rs:15-26 | a printed coordinate parses back to itself. |
| Day08.ParseCoordinates | src/bin/day08.rs:57-59 | at most one coordinate per line; `ParseCoordinatesCons` and `ParseFormatAll` state which. |
| Day08.ParseCoordinatesCons | src/bin/day08.rs:58 | a parsing line contributes its coordinate and a failing one is skipped. |
| Day08.FormatAllReadable | src/bin/day08.rs:57-59 | printed coordinates are lines the parser can read. |
| Day08.ParseFormatAll | src/bin/day08.rs:57-59 | parsing printed coordinates gives them back. |
| Day08.ParseFormatStep | src/bin/day08.rs:58 | the inductive step of that round trip. |
| Day08.Square | src/bin/day08.rs:34 | a square is zero exactly at zero. |
| Day08.DistanceSquared | src/bin/day08.rs:30-35 | the squared distance is zero exactly between equal points. |
| Day08.DistanceSymmetric | src/bin/day08.rs:30-35 | the squared distance is symmetric. |
| Day08.CompareProperties | src/bin/day08.rs:51-55 | the edge order is antisymmetric and equal exactly on equal distances. |
| Day08.SortedByCompare | src/bin/day08.rs:72 | sorted by distance means no later edge compares less than an earlier one. |
| Day08.RowUpTo | src/bin/day08.rs:64-70 | row `i` up to `j` has `j - i - 1` edges. |
| Day08.RowMembers | src/bin/day08.rs:64-70 | row `i` holds exactly the pairs `(i, j)` with the right distance. |
| Day08.PairsMembers | src/bin/day08.rs:63-71 | the first `i` rows hold exactly the pairs whose first index is below `i`. |
| Day08.PairsLength | src/bin/day08.rs:63-71 | the first `i` rows hold `i * (2n - i - 1) / 2` edges. |
| Day08.AllPairsProperties | src/bin/day08.rs:61-71 | all `n (n - 1) / 2` pairs `i < j`, each with its squared distance, and nothing else. |
| Day08.GenerateSortedEdges | src/bin/day08.rs:61-74 | the edges are a permutation of all pairs, sorted by distance. |
| Day08.EdgesInRange | src/bin/day08.rs:133-134 | every edge indexes two points of the input. |
| Day08.LinkedSymmetric | src/bin/day08.rs:84-91 | the chosen edges connect both ways. |
| Day08.LinkedInRange | src/bin/day08.rs:84-91 | connected points are points of the input. |
| Day08.NeighboursPush | src/bin/day08.rs:84-87 | `entry().or_default().push()` adds exactly one neighbour. |
| Day08.LinkedSnoc | src/bin/day08.rs:83 | one more edge adds exactly its two directions. |
| Day08.AdjacencyPush | src/bin/day08.rs:83-92 | the two pushes of one edge keep the lists matching the edges taken. |
| Day08.BuildAdjacency | src/bin/day08.rs:81-92 | `v` is a neighbour of `u` exactly when one of the edges taken joins them. |
| Day08.ReachSelf | src/bin/day08.rs:103 | every point reaches itself. |
| Day08.ReachExtend | src/bin/day08.rs:110-113 | reachability extends along an edge. |
| Day08.WalkStays | src/bin/day08.rs:106-116 | a walk from inside a closed set stays inside. |
| Day08.ClosedHoldsReachable | src/bin/day08.rs:106-116 | a closed set holds everything reachable from its points. |
| Day08.CircuitOfTraversal | src/bin/day08.rs:102-117 | what one traversal newly visits is exactly the circuit of its start. |
| Day08.ElementsSnoc | src/bin/day08.rs:112 | pushing onto the stack adds one element. |
| Day08.Identity | src/bin/day08.rs:129 | `(0..n).collect()` has `n` ids. |
| Day08.NodesMembers | src/bin/day08.rs:97 | the points are exactly `0..n`. |
| Day08.NodesSize | src/bin/day08.rs:97 | there are `n` of them. |
| Day08.PushUnseen | src/bin/day08.rs:110-114 | the visited set gains the neighbours, the stack gains exactly the newly visited ones, and nothing is pushed twice. |
| Day08.PopElements | src/bin/day08.rs:106 | popping removes the top element. |
| Day08.Explore | src/bin/day08.rs:102-116 | the traversal visits new points reachable from the start, leaves the visited set closed, and counts the new points. |
| Day08.PopAndVisit | src/bin/day08.rs:106-115 | one pop keeps the traversal's counting and reachability invariants. |
| Day08.NeighboursInRange | src/bin/day08.rs:110 | neighbours are points of the input. |
| Day08.RoundCounted | src/bin/day08.rs:106-115 | the counted points and the stack still cover the newly visited points without overlap. |
| Day08.RoundExplored | src/bin/day08.rs:109-114 | the finished points stay closed and every newly visited point is reachable from the start. |
| Day08.RoundCount | src/bin/day08.rs:107 | the finished set grows by one. |
| Day08.SubsetBound | src/bin/day08.rs:97 | a set of points has at most `n` elements. |
| Day08.UnionHolds | src/bin/day08.rs:95-118 | each circuit lies in the union. |
| Day08.PartitionSnoc | src/bin/day08.rs:117 | one more traversal adds a disjoint circuit and its size. |
| Day08.RootedSnoc | src/bin/day08.rs:117 | one more traversal adds a circuit with its start as root. |
| Day08.Circuits | src/bin/day08.rs:94-118 | the sizes are those of circuits that partition all points, each closed and reachable from its root; they sum to `n`. |
| Day08.VisitFrom | src/bin/day08.rs:97-118 | one start node keeps the loop invariant, skipping visited nodes. |
| Day08.NewCircuit | src/bin/day08.rs:102-117 | an unvisited start adds its circuit. |
| Day08.SumSnoc | src/bin/day08.rs:117 | the sizes' sum grows by the new size. |
| Day08.AddCircuit | src/bin/day08.rs:117 | the new circuit is disjoint from the old ones and completes the union. |
| Day08.SortDescending | src/bin/day08.rs:120 | the sizes sorted from largest down, as a permutation. |
| Day08.ProductOfFirst | src/bin/day08.rs:121 | the product of the first `m` values, or of all when fewer. |
| Day08.Part1 | src/bin/day08.rs:76-122 | the product of the three largest circuit sizes after the first `x` shortest edges. |
| Day08.Relabel | src/bin/day08.rs:137-141 | relabelling keeps the length; `RelabelInPlace` is the in-place loop proved equal to it. |
| Day08.RelabelInPlace | src/bin/day08.rs:137-141 | the array becomes its relabelling. |
| Day08.Merge | src/bin/day08.rs:133-141 | merging keeps the length; `MergeProperties` and `LabelsOfMerge` state what changes. |
| Day08.MergeAll | src/bin/day08.rs:132-149 | merging every edge keeps the length; `MergeAllJoins` and `AllMerged` state the resulting groups. |
| Day08.MergeProperties | src/bin/day08.rs:136-141 | only the second group's ids change, to the first's, and the edge's ends end up in one group. |
| Day08.MergeKeepsJoined | src/bin/day08.rs:136-141 | points in one group stay together. |
| Day08.LabelsOfMerge | src/bin/day08.rs:136-143 | merging distinct groups removes exactly the second label. |
| Day08.TwoLabels | src/bin/day08.rs:136 | differing ids mean at least two groups. |
| Day08.MergeAllJoins | src/bin/day08.rs:132-149 | after all merges, every edge's ends share a group. |
| Day08.AllMerged | src/bin/day08.rs:132-149 | merging all pairs leaves a single group. |
| Day08.LabelsOfIdentity | src/bin/day08.rs:129-130 | the ids start as `n` distinct groups. |
| Day08.MergeEdge | src/bin/day08.rs:133-143 | the ids become the merge, the merge happens exactly when the ids differ, and then the group count drops by one. |
| Day08.LastConnection | src/bin/day08.rs:128-150 | with at least two points, the edge that takes the groups from two to one and the product of its ends' x; otherwise 0. |
| Day08.Part2 | src/bin/day08.rs:124-151 | the product of the x coordinates of the edge that completes a single circuit, or 0 with fewer than two points. |

## Left out

- Reading the input (`read_lines`, `read_grid`, `include_str!`), `main`, `src/bin/scaffold.rs` and `src/lib.rs`: the parts take the input as already-split lines (day 2: one string; day 4: the grid).
- The tests: their expected totals depend on input files that are not part of this model.
- i64 and usize overflow: every integer is unbounded, so sums, products and `pow(2)` never wrap. This includes day 8's product of x coordinates and day 6's products.
- Rust's `trim` and `split_whitespace` use Unicode whitespace. The model uses ASCII whitespace (space, tab to carriage return).
- Day 7 reads lines as bytes with `as_bytes().get(pos)`. The model indexes characters, which agree for ASCII lines.
- Hash order: the sets and maps of days 7 and 8 are unordered. Results that do not depend on drain order are stated as such.
- Sort stability: the sort is insertion sort, and the source's unstable sorts may order equal keys differently. So `Day05.Part2` returns the ranges sorted by start, and `Day08.Part1` and `Day08.Part2` return the edges sorted by distance, as ghost outputs; their results are stated in terms of them.
- Day08.BuildAdjacency: the order of each neighbour list is not modelled; the contract states membership only, which is all the traversal uses.
- Day08.Part1 and Day08.Part2: a line that splits into fewer than three comma fields, all integers, makes `parts[2]` panic. These are excluded by the `Readable` precondition.
- Day06.Part2: with no number rows the `Columns` iterator never ends and `collect` diverges, so at least one row besides the operators is required.
- Day03.ParseBankN: with fewer than `n - 1` digits, `digits.len() - remaining_needed` underflows and panics, so it is required.
- Day04.Part2: `grid[y][x]` needs every row to be at least as wide as the first; that is required (`WideRows`). The unused `surroundings` field of `to_change` is dropped.
- Day05.MergeAndSum and Day05.Part2: the result is equated with the union's size only for well-formed ranges (start at most end). For reversed ranges it is only the sweep over whichever sorted order the sort produced, and that can depend on the order of equal starts: `5-3` then `5-10` sweeps to 5, the other order to 6. An empty range list (`ranges[0]` panics) is excluded by a precondition.
- Day05.Blocks: the cut that `split_once("\n\n")` makes is modelled as the first empty line after the first line. That assumes `\n` line endings: for `\r\n` text, `lines` still yields empty lines, but the source finds no `"\n\n"`, takes the whole input as ranges and counts no ids.
- Day01.Part1 and Day01.Part2: a line that does not parse panics, and is excluded by `AllRotations`.
- Day07.Part1 and Day07.Part2: a beam landing outside the line or on a character other than `.` and `^` hits `todo!`, and a beam at column 0 meeting `^` underflows. These are excluded by `WellFormed`.
- Day02: the two validity tests are passed as the `Check` value instead of a function; `expect("Not a number")` is excluded by `WellFormed`.
- Day05.Part1 and Day05.CountFresh: their contracts bound the count only. Which ids count is their definition (an id line that parses and lies in some range), and `Day05.InSomeRangeIsUnion` ties that to the union of the ranges.
