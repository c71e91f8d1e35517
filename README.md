# Advent of Code 2021, days 1 to 3, in Dafny

A model of the three puzzle solvers of the repository, with proofs of what
each one computes:

- **Trend counter** (`day1`, module `TrendCounter`): count the measurements
  that are larger than the previous one (`count_increases`), and sum every
  window of three consecutive measurements first (`sum_windows`).
- **Navigation simulator** (`day2`, module `Navigation`): parse
  `"<direction> <distance>"` commands and fold them over a
  `(horizontal, depth)` position that starts at `(0, 0)`.
- **Binary diagnostic** (`day3`, module `Diagnostic`): per-column one counts,
  gamma (strict-majority bits) and epsilon (its complement), and the oxygen and
  CO2 ratings found by narrowing the report one column at a time, most
  significant column first.

Files: `wrappers.dfy` (an `Option` type that also stands for a panic),
`trend_counter.dfy`, `navigation.dfy`, `diagnostic.dfy`.

The loops of the source are methods proved against specification functions:
- `CountIncreases` against the count of increasing indices;
- `FollowCourse` against the per-direction distance totals;
- `BitArray` against the positional value of the bits;
- `GetGamma` against the column counts;
- `GetRating` against the recursive `Rating`.

The pure code is functions. The properties are stated as the `ensures` of
these members and as lemmas beside them.

Main results:
- The windowed count that `main` reports equals the number of indices `i`
  with `s[i - 3] < s[i]` (`ThreeWindowIncreases`).
- Parsing the text of a command gives the command back (`ParseFormatCommand`).
- Every bit of epsilon is the flipped bit of gamma (`GetEpsilon`).
- Bit assembly and bit extraction round-trip (`BitsValueRoundTrip`).
- On a nonempty report of distinct rows, each below `2^row_len`, with
  `row_len >= 1`, the oxygen rating always exists (`O2RatingFound`).
- A rating is the sole survivor of the first narrowing step that leaves one
  row, and there is none exactly when no step does
  (`RatingIsFirstSoleSurvivor`).

The CO2 criterion can discard every survivor, for example two rows that both
have a 1 in the column being looked at. The source then panics with
"Rating not found!", and the model returns `None`. `CO2CanEmpty` shows such a
report.

## Model

| member | source | states |
|---|---|---|
| TrendCounter.GapIncreases | day1/src/main.rs:7-13 | the count of increases over a gap is at most `max(|s| - gap, 0)`, so 0 for an empty or one-element input when the gap is 1 |
| TrendCounter.GapIncreasesCountsIndices | day1/src/main.rs:4-16 | the count equals the number of indices `i` with `gap <= i < |s|` and `s[i - gap] < s[i]` |
| TrendCounter.Increases | day1/src/main.rs:4-16 | the function form of `count_increases`: at most `max(|s| - 1, 0)`; its exact value is given by `GapIncreasesCountsIndices` (with gap 1) and by `CountIncreases` |
| TrendCounter.CountIncreases | day1/src/main.rs:4-16 | the loop with the `previous` cursor returns the number of indices `i >= 1` with `s[i - 1] < s[i]`, at most `max(|s| - 1, 0)` |
| TrendCounter.SumWindows | day1/src/main.rs:32-37 | for `w > 0` there are `|s| - w + 1` windows when `w <= |s|` and none otherwise; element `i` is the sum of `s[i..i + w]` |
| TrendCounter.WindowShift | day1/src/main.rs:34-35 | neighbouring window sums differ by the entering value minus the leaving value |
| TrendCounter.SameTrend | day1/src/main.rs:4-16 | a sequence that rises between neighbours exactly where another rises between values `w` apart has as many adjacent increases as the other has gap-`w` increases |
| TrendCounter.WindowedIncreases | day1/src/main.rs:32-37 | the increases between window sums of width `w` are the increases between values `w` apart |
| TrendCounter.ThreeWindowIncreases | day1/src/main.rs:46 | the second reported number is the number of indices `i` with `s[i - 3] < s[i]` |
| TrendCounter.CountIncreasesExample | day1/src/main.rs:59 | counts 3 for `[1, 2, 3, 2, 3, 1]`, as the source's test does; the counts 0 for `[]` and `[1]` are extra checks beyond the source's tests |
| TrendCounter.SumWindowsExample | day1/src/main.rs:69 | `sum_windows([1, 2, 3, 4], 2) == [3, 5, 7]` |
| Navigation.ParseDirection | day2/src/main.rs:26-33 | total: each of the three tokens gives its direction, and exactly the other strings give `Unknown` |
| Navigation.ParseDirectionName | day2/src/main.rs:26-33 | parsing the name of a known direction gives that direction |
| Navigation.ParseNat | day2/src/main.rs:40 | digit parsing succeeds exactly on nonempty all-digit strings |
| Navigation.ParseInt | day2/src/main.rs:40 | the distance parse succeeds exactly on an optional sign followed by one or more digits |
| Navigation.ParseNatIsPositional | day2/src/main.rs:40 | any nonempty digit string, leading zeros included, parses to the sum of its digits weighted by powers of ten |
| Navigation.LeadingZero | day2/src/main.rs:40 | a leading `0` does not change the parsed value |
| Navigation.NonCanonicalDigitsExample | day2/src/main.rs:40 | `"007"` parses to 7, `"+010"` to 10 and `"-0"` to 0 |
| Navigation.ParseFormatInt | day2/src/main.rs:40 | parsing the decimal text of any integer gives the integer back |
| Navigation.FindSpace | day2/src/main.rs:36 | finds the first space of the line and only that one, or reports that there is none |
| Navigation.ParseCommand | day2/src/main.rs:35-42 | fails without a space; otherwise the direction comes from the text before the first space and the distance is the integer parse of the rest, failing when that is not an integer |
| Navigation.ParseFormatCommand | day2/src/main.rs:35-42 | parsing the text of a command with a known direction gives the command back |
| Navigation.ApplyCommand | day2/src/main.rs:44-69 | Forward adds to horizontal; Down adds to depth and Up subtracts from it; each leaves the other coordinate alone; Unknown leaves the position unchanged whatever its distance |
| Navigation.FollowCourse | day2/src/main.rs:84-90 | folding from `(0, 0)` ends at horizontal = total forward distance and depth = total down distance minus total up distance |
| Navigation.ParseDirectionExample | day2/src/main.rs:103 | `parse_direction("up") == Up` |
| Navigation.ParseCommandExample | day2/src/main.rs:107-115 | `"forward 10"` parses to `Forward 10` |
| Navigation.ApplyCommandExample | day2/src/main.rs:118-131 | `(0, 0)` moved `Down 10` is `(0, 10)`, as the source's test has it; `Up 10` giving `(0, -10)` is an extra check beyond the source's tests |
| Diagnostic.GetBit | day3/src/main.rs:1-3 | a bit is 0 or 1 |
| Diagnostic.GetBitIsShift | day3/src/main.rs:1-3 | bit `pos` of `num` is `(num / 2^pos) % 2` |
| Diagnostic.BitsValueIsWeightedSum | day3/src/main.rs:13-20 | shift-and-add assembly reads the bits most significant first: the value is the sum of `bits[i] * 2^(n - 1 - i)` |
| Diagnostic.BitsValueBound | day3/src/main.rs:13-20 | n bits, each 0 or 1, make a value below `2^n` |
| Diagnostic.BitsValueRoundTrip | day3/src/main.rs:13-20 | bit `n - 1 - i` of the assembled value is `bits[i]` |
| Diagnostic.BitArray | day3/src/main.rs:13-20 | the loop returns the weighted sum of the bits; for 0/1 bits that value is below `2^n` and its bits read back as the input |
| Diagnostic.CountOnes | day3/src/main.rs:27-31 | the number of ones at a column is at most the number of rows |
| Diagnostic.CountOnesIsFilterLength | day3/src/main.rs:27-31 | the ones at a column are the rows kept by filtering that column for 1; the rows kept for 0 are all the others |
| Diagnostic.GetGamma | day3/src/main.rs:42-54 | gamma is below `2^row_len`, and for every column `p < row_len` its bit `p` is 1 exactly when the ones exceed half the row count rounded down, so a tie gives 0 |
| Diagnostic.GetEpsilon | day3/src/main.rs:61-63 | for `row_len < 16` and gamma below `2^row_len`: gamma + epsilon = `2^row_len - 1`, epsilon is below `2^row_len`, and every bit below `row_len` is flipped |
| Diagnostic.ComplementFlipsBits | day3/src/main.rs:61-63 | subtracting a `r`-bit value from `2^r - 1` flips each of its `r` low bits |
| Diagnostic.EpsilonIsMinority | day3/src/main.rs:42-63 | epsilon's bit is 1 exactly where the ones are at most half the row count, ties included |
| Diagnostic.FilterReads | day3/src/main.rs:70-75 | `filter_reads`: its own contract only bounds the length by the input's; its contents are given by `FilterReadsSubsequence`, `FilterReadsKeeps` and `FilterReadsContents` |
| Diagnostic.FilterReadsSubsequence | day3/src/main.rs:70-75 | the filtered rows are an order-preserving subsequence of the input |
| Diagnostic.FilterReadsKeeps | day3/src/main.rs:70-75 | every kept row comes from the input and has the chosen bit at the chosen position |
| Diagnostic.FilterReadsContents | day3/src/main.rs:70-75 | every row with the chosen bit is kept as often as the input holds it, and no other row is kept |
| Diagnostic.BitCriteria | day3/src/main.rs:99-105 | oxygen keeps 1 exactly when ones are at least zeros (ties keep 1); CO2 keeps 1 exactly when ones are fewer than zeros (ties keep 0) |
| Diagnostic.CriteriaOpposite | day3/src/main.rs:99-105 | on a given column the two criteria choose opposite bits |
| Diagnostic.Narrow | day3/src/main.rs:88-90 | one step keeps only survivors, all with the bit the criterion picks from the survivors' own ones count |
| Diagnostic.NarrowAgreement | day3/src/main.rs:87-91 | survivors that agree on the columns chosen so far still agree after narrowing one more column |
| Diagnostic.Rating | day3/src/main.rs:85-97 | a found rating is one of the rows |
| Diagnostic.O2NarrowNonEmpty | day3/src/main.rs:99-101 | the oxygen criterion never discards every survivor |
| Diagnostic.O2RatingFound | day3/src/main.rs:85-101 | for `1 <= k <= row_len`, nonempty distinct survivors, each below `2^row_len` and agreeing on columns `k` and up, the oxygen search always narrows to one row before the columns run out |
| Diagnostic.Survivors | day3/src/main.rs:86-91 | the loop state of `get_rating` after columns `row_len - 1` down to `k`: no longer than the rows; its meaning is given by `SurvivorsAgree` and `RatingIsFirstSoleSurvivor` |
| Diagnostic.RatingIsFirstSoleSurvivor | day3/src/main.rs:86-96 | a found rating is the sole survivor of some step `j`, and no step between the top column and `j` leaves one row; no rating is found exactly when no step leaves one row, which is when the source panics |
| Diagnostic.RatingOfSurvivors | day3/src/main.rs:86-96 | a rating found from the survivors of column `k` is the sole survivor of a step `j < k`, and no step between `k` and `j` leaves one row |
| Diagnostic.NoRatingOfSurvivors | day3/src/main.rs:86-96 | from any column `k`, the recursive rating is missing exactly when no step below `k` leaves one row |
| Diagnostic.SurvivorsAgree | day3/src/main.rs:86-91 | after narrowing columns `row_len - 1` down to `k`, the survivors are an order-preserving subsequence of the rows and agree on every column from `k` up |
| Diagnostic.GetRating | day3/src/main.rs:85-97 | the loop from column `row_len - 1` down keeps as its invariant exactly the survivors of `SurvivorsAgree` (a subsequence of the rows agreeing on every chosen column) and returns the recursive rating, a member of the rows; for oxygen on distinct, nonempty, in-range rows and `row_len >= 1` it never fails |
| Diagnostic.GetO2Rating | day3/src/main.rs:107-109 | the oxygen rating is a member of the rows and exists for distinct, nonempty rows, each below `2^row_len`, with `row_len >= 1` |
| Diagnostic.GetCO2Rating | day3/src/main.rs:111-113 | the CO2 rating, when found, is a member of the rows |
| Diagnostic.GetBitExample | day3/src/main.rs:6-11 | bits 0 to 3 of `0b1010` are 0, 1, 0, 1 |
| Diagnostic.BitArrayExample | day3/src/main.rs:23-25 | `[1, 0, 1, 0]` assembles to `0b1010` |
| Diagnostic.CountOnesExample | day3/src/main.rs:34-40 | the column counts of `[0b0100, 0b0001, 0b0111]` are 2, 1, 2, 0 |
| Diagnostic.GammaExample | day3/src/main.rs:57-59 | the gamma contract admits only `0b0101` for `[0b0100, 0b0001, 0b0111]` and 4 columns |
| Diagnostic.EpsilonExample | day3/src/main.rs:66-68 | `get_epsilon(0b0101, 4) == 0b1010` |
| Diagnostic.FilterReadsExample | day3/src/main.rs:78-83 | filtering `[0, 1, 2, 3]` for bit 0 set gives `[1, 3]` |
| Diagnostic.RatingExampleColumn3 | day3/src/main.rs:116-129 | on the example rows column 3 holds two ones, splitting the rows into `[4, 1, 7]` and `[11, 15]` |
| Diagnostic.O2ExampleColumns2To1 | day3/src/main.rs:116-121 | the oxygen steps on columns 2 and 1 narrow `[4, 1, 7]` to `[4, 7]` and then to `[7]` |
| Diagnostic.O2RatingExample | day3/src/main.rs:116-121 | the oxygen rating of `[0b0100, 0b0001, 0b0111, 0b1011, 0b1111]` is `0b0111` |
| Diagnostic.CO2RatingExample | day3/src/main.rs:124-129 | the CO2 rating of the same rows is `0b1011` |
| Diagnostic.CO2CanEmpty | day3/src/main.rs:85-105 | `[0b100, 0b101]` with 3 columns loses every survivor at the first CO2 step, so no rating is found |

## Left out

- File and console I/O: both `read_input` functions, the `println!` calls, and the tests that read the input files from disk.
- day3 `main`: reading the input with `include_str!`, splitting it into rows, taking the row length from the first row, and `u16::from_str_radix`. The model takes the rows and `row_len` as parameters, so it does not check that all rows have the same length.
- day2 `main`: mapping `parse_command` over the input lines. Only the fold over the parsed commands is modelled (`FollowCourse`).
- Machine widths. `isize`, `i32` and `u16` values are unbounded integers. The sums of `sum_windows` and `apply_command` and the counters of `count_increases` and `count_ones` do not overflow or wrap. `half` is never truncated to `u16`. The `(count > half)` bits and every row are naturals. `bit_array` does not lose high bits beyond 16. `GetBit` returns a bit for every `pos`, while `num >> pos` on a `u16` panics on overflow in debug builds for `pos >= 16`.
- GetEpsilon: requires `row_len < 16` and gamma below `2^row_len`. The source's u16 arithmetic panics outside that range: the shift `1 << 16` overflows, and the subtraction underflows.
- ParseInt: models the standard signed decimal grammar (an optional `+` or `-`, then one or more ASCII digits). It does not model the overflow error for values that do not fit in `isize`.
- The `f32` arithmetic in `get_rating` and the criteria: the comparisons with `half = len / 2.0` are stated as the exact integer comparisons `2 * ones >= n` and `2 * ones < n`.
- The criterion closure `&dyn Fn(f32, f32) -> u8` is the enumeration `Criterion = O2 | CO2`.
- Panics are results: where the source panics (`unwrap` on a line without a space or on a distance that is not an integer, or "Rating not found!"), the model returns `None`.
- SumWindows: requires `w > 0`, because `windows(0)` panics; `main` passes 3 and the test passes 2, so no caller in the source passes 0.
