# Advent of Code 2023 solutions, modelled in Dafny

This project models the puzzle solutions of an Advent of Code 2023
repository written in Rust (days 1, 2, 3, 4, 6, 7, 8 and 9) and its two
numeric utilities, and proves properties of the model. The utilities are an
integer binary search driven by a three-way comparator, whose midpoint is
meant to be overflow-free (it is for the unsigned types; see Findings), and
`gcd`/`lcm`.

There is one Dafny module per source file:

- `Wrappers` (wrappers.dfy) holds the shared vocabulary. `Outcome` is
  `Ok`, `Err` or `Panic`: the puzzle code panics through `unwrap`,
  `panic!` and `unreachable!`, and the model returns `Panic` in those
  cases instead of excluding them by a precondition. The module also holds
  bytes, ASCII digits, sums, and `FindFirst`/`FindLast` (Rust's
  `find`/`rfind` on a range).
- `Sorting` (sorting.dfy) provides a stable sort by key, which stands for
  `sort_by_cached_key`, and sums over a sequence that ignore the order of
  their elements.
- `Num` models `src/utils/num.rs`.
- `BinarySearch` models `src/utils/binary_search.rs`.
- `Day1` … `Day9` model `src/dayN.rs`.

Machine integers are modelled as unbounded `int`/`nat`. The one place where
the width matters to a claim of the source, `midpoint`, has its `uN`/`iN`
ranges written out.

## Model

| member | source | states |
|---|---|---|
| Num.Gcd | src/utils/num.rs:6-13 | The result divides both arguments, and every common divisor divides it, so it is the greatest common divisor. |
| Num.GcdLoop | src/utils/num.rs:6-13 | The loop that swaps the operands and reduces the second modulo the first until it is zero returns the greatest common divisor of its inputs, which divides both. |
| Num.GcdIdentity | src/utils/num.rs:6-13 | `gcd(a, 0) == a`, `gcd(0, b) == b`, and the gcd is 0 exactly when both arguments are 0. |
| Num.GcdCommutative | src/utils/num.rs:6-13 | `gcd(a, b) == gcd(b, a)`. |
| Num.Lcm | src/utils/num.rs:15-17 | If not both arguments are 0, then `a / gcd(a, b) * b` is a common multiple and `gcd * lcm == a * b`. It is 0 exactly when an argument is 0. |
| Num.LcmAll | src/day8.rs:105-107 | `reduce(lcm).unwrap_or(1)` over positive numbers is positive and divisible by each of them. |
| Num.Examples | src/utils/num.rs:6-17 | `gcd(12, 18) == 6`, `lcm(4, 6) == 12`, and the lcm of 4, 6 and 8 is 24. |
| BinarySearch.Midpoint | src/utils/binary_search.rs:42-46 | The midpoint lies between its arguments, in either order. It equals an endpoint exactly when the arguments are at most 1 apart. Otherwise it lies strictly between them. |
| BinarySearch.MidpointSymmetric | src/utils/binary_search.rs:53-59 | `a.midpoint(b) == b.midpoint(a)`. |
| BinarySearch.MidpointAtEndpointMeansAdjacent | src/utils/binary_search.rs:45-46 | When the midpoint is an endpoint, no value lies strictly between the two arguments. |
| BinarySearch.MidpointUnsignedFits | src/utils/binary_search.rs:53-59 | For `uN` arguments, the gap `max - min`, its half and the result are all `uN` values, so nothing overflows. |
| BinarySearch.CheckedSignedMidpoint | src/utils/binary_search.rs:53-59 | For `iN` arguments, the code as written overflows exactly when `max - min` is not an `iN`; when it does not overflow it returns the midpoint. |
| BinarySearch.SignedMidpointOverflows | src/utils/binary_search.rs:55 | On `i8`, `midpoint(-128, 127)` overflows. |
| BinarySearch.SignedMidpoint | src/utils/binary_search.rs:53-59 | Measuring the gap in the unsigned type of the same width keeps every intermediate value in range, and the result is the midpoint. |
| BinarySearch.BinarySearchRange | src/utils/binary_search.rs:14-36 | `(x, x)` gives `Err(x)` without calling `cmp`. `Ok(v)` only for a probe with `cmp(v) == Equal`. Every probe lies strictly between the original bounds, and only the last can compare `Equal`. An `Err` is within the bounds. For a monotone `cmp` on `start < end`, everything above `start` up to the `Err` value compares `Less` and everything above it compares `Greater`. |
| BinarySearch.SquareRootOf50Boundary | src/utils/binary_search.rs:14-36 | Comparing `t*t` with 50 on `0..100`, the only `Err` value that satisfies the search's boundary guarantee is 7, the last value below the target. |
| BinarySearch.SquareAgainst50Monotone | src/utils/binary_search.rs:14-36 | Comparing `t*t` with 50 is monotone on `0..100`, so the search's boundary guarantee applies to the example search of `t*t` against 50. |
| BinarySearch.SquareRootOf50 | src/utils/binary_search.rs:14-36 | Searching `0..100` with the `t*t` against 50 comparator returns `Err(7)`. |
| Day1.IsDigit | src/day1.rs:34-36 | A slice that starts with an ASCII digit yields that digit's value. |
| Day1.IsDigitSpec | src/day1.rs:34-48 | `is_digit` is `Some` exactly when the slice starts with an ASCII digit or a spelled-out digit word. A slice that starts with the word for `d` yields `d`, whatever follows. |
| Day1.WordsFacts | src/day1.rs:37-45 | The nine digit words are "one" to "nine". No word starts with an ASCII digit, and no two words are both prefixes of the same slice. |
| Day1.WordIsDigit | src/day1.rs:37-45 | A word followed by any bytes is recognised as its digit. |
| Day1.EmptyIsNoDigit | src/day1.rs:46 | The empty slice is not a digit. |
| Day1.LineValue | src/day1.rs:20-29 | Given a digit recogniser applied at every offset, the line value panics exactly when no offset yields a digit. Otherwise it is at most 99. |
| Day1.LineValueIsFirstAndLastDigit | src/day1.rs:20-29 | The line value is 10 times the digit at the smallest recognised offset plus the digit at the largest. |
| Day1.LineValue1 | src/day1.rs:7-10 | Part 1's line value panics exactly when the line has no ASCII digit, and is at most 99 otherwise. |
| Day1.LineValue2 | src/day1.rs:19-29 | Part 2's line value panics exactly when no offset of the line starts a digit or a digit word, and is at most 99 otherwise. |
| Day1.Part2ReadsMore | src/day1.rs:7-29 | Every line that part 1 accepts is accepted by part 2. |
| Day1.WithoutWordsPartsAgree | src/day1.rs:7-29 | On a line without digit words, the two parts compute the same value. |
| Day1.Split | src/day1.rs:6 | Splitting at a separator gives at least one part and no part contains the separator. Joining the parts gives back the input. |
| Day1.SplitJoin | src/day1.rs:6 | Splitting the join of separator-free parts gives back the parts. |
| Day1.SumLines | src/day1.rs:5-12 | The sum over lines succeeds exactly when every line's value does. |
| Day1.Part1 | src/day1.rs:3-13 | Part 1 panics unless every line holds an ASCII digit, and otherwise is at most 99 per line. |
| Day1.Part2 | src/day1.rs:15-32 | Part 2 panics unless `is_digit` finds a digit in every line, and otherwise is at most 99 per line. |
| Day1.TrailingNewlinePanics | src/day1.rs:5-9 | An input that ends in a newline has an empty last line, so both parts panic. |
| Day2.AssignColors | src/day2.rs:26-35 | Reading one subset panics exactly when a mention names a colour other than red, green or blue. |
| Day2.AssignColorsIsLastMention | src/day2.rs:26-36 | Each colour of a parsed subset is the count of its last mention, or 0 if it is not mentioned. |
| Day2.Part1 | src/day2.rs:47-57 | The id of every game in which every subset has at most 12 red, 13 green and 14 blue is at most the answer. The answer is 0 exactly when every such game has id 0. |
| Day2.Part1PermutationInvariant | src/day2.rs:47-57 | Part 1 does not depend on the order of the games. |
| Day2.Minimum | src/day2.rs:64-72 | Each colour of the reduced maxima is at least that colour in every subset and equals it in some subset. With no subsets the result is `(0, 0, 0)`. |
| Day2.EmptyGameHasNoPower | src/day2.rs:72-74 | A game without subsets has maxima `(0, 0, 0)` and power 0. |
| Day2.PossibleIffMinimumFits | src/day2.rs:50-72 | A game passes the part 1 filter exactly when its part 2 maxima fit the limits. |
| Day2.Part2 | src/day2.rs:60-76 | The power `red * green * blue` of every game's maxima is at most the answer. The answer is 0 exactly when every game has power 0. |
| Day2.Part2PermutationInvariant | src/day2.rs:60-76 | Part 2 does not depend on the order of the games. |
| Day3.RunEnd | src/day3.rs:17-20 | The end of the digit run starting at `j` is its first non-digit or the end of the line. Every position in between is a digit. |
| Day3.NextNonDot | src/day3.rs:34-40 | Skipping dots stops at the first non-dot at or after `j`, or at the end of the line. |
| Day3.ScanLine | src/day3.rs:13-41 | Every recorded number sits on its row as a maximal run of digits with that decimal value. Every recorded symbol is its line's non-digit, non-dot character at its column. Every run start and every symbol is recorded. Both lists are in column order. |
| Day3.Parse | src/day3.rs:10-45 | The schematic holds exactly the maximal digit runs and the symbol cells of all lines, with their row and column, in reading order. |
| Day3.AdjacentIffTouches | src/day3.rs:56 | The underflow-free unsigned test holds iff the symbol's row is within 1 of the number's row and its column lies in `col - 1 ..= col + len`. Equivalently, the symbol is a neighbour of one of the number's digit cells. |
| Day3.PartIffSymbolNearby | src/day3.rs:52-57 | A scanned number passes the part 1 filter exactly when a symbol of the grid is a neighbour of one of its digits. |
| Day3.Part1 | src/day3.rs:47-60 | The value of every number next to a recorded symbol is at most the answer. The answer is 0 exactly when all those numbers are 0. |
| Day3.Part1IsSumOfTouchedNumbers | src/day3.rs:47-60 | Part 1 is the sum of the values of exactly the numbers that touch a symbol in the grid. |
| Day3.AdjacentFrom | src/day3.rs:69-71 | The filtered numbers are exactly the adjacent ones, in list order. |
| Day3.GearRatio | src/day3.rs:67-79 | A symbol contributes exactly when it is `*` and exactly two numbers touch it, and then it contributes the product of their values. |
| Day3.Part2 | src/day3.rs:62-82 | The ratio of every gear is at most the answer. With no `*` among the symbols the answer is 0. |
| Day3.Part2PermutationInvariant | src/day3.rs:62-82 | Part 2 does not depend on the order of the symbols. |
| Day4.CardFromLists | src/day4.rs:12-21 | The two sets of a card hold exactly the numbers listed on each side. |
| Day4.MatchCount | src/day4.rs:30 | The match count is at most the size of either set, and it is 0 exactly when the sets are disjoint. |
| Day4.DuplicatesCountOnce | src/day4.rs:30-54 | Listing a number a second time on either side does not change the match count. |
| Day4.Points | src/day4.rs:31 | The score is 0 exactly when there are no matches. |
| Day4.PointsDouble | src/day4.rs:31 | One match scores 1 and each further match doubles the score. |
| Day4.Part1 | src/day4.rs:26-33 | Every card's score is at most the answer, and the answer is 0 exactly when no card has a match. |
| Day4.Part1PermutationInvariant | src/day4.rs:26-33 | Part 1 does not depend on the order of the cards. |
| Day4.ScanStep | src/day4.rs:40-44 | The current card has one more instance than the copies popped for it, so at least one. The deque's length becomes `max(len - 1, c)`. Its first `c` entries gain exactly `n`, padding counting as 0. Later entries are unchanged. |
| Day4.DequeStep | src/day4.rs:39-46 | If the deque holds the copies won so far by each later card, the step yields the current card's instance count and keeps that property. |
| Day4.Part2 | src/day4.rs:36-49 | Part 2 is the total number of instances. Each card has one plus the copies won by earlier cards whose matches reach it, so the total is at least the number of cards. |
| Day4.WonOnlyByEarlier | src/day4.rs:39-46 | Cards at or after a card never give it copies. |
| Day4.NoMatchesOneEach | src/day4.rs:36-49 | With no matches anywhere, every card has exactly one instance. |
| Day6.CountWaysToWin | src/day6.rs:65-76 | Panics exactly when no hold time `t` in `1..time` has `(time - t) * t > dist`, and otherwise returns at least 1. |
| Day6.CountSpansWinners | src/day6.rs:68-75 | `first` and `last` are winners with `first <= last` and the result is `last - first + 1`. No time outside `first..=last` wins. |
| Day6.WinnersContiguous | src/day6.rs:65-76 | Any hold time between two winning times also wins. |
| Day6.CountIsNumberOfWinners | src/day6.rs:65-76 | The result is the number of winning hold times. |
| Day6.Part1 | src/day6.rs:40-43 | The product panics exactly when some race has no winning time. |
| Day6.Part1IsProductOfWinners | src/day6.rs:40-43 | Part 1 is the product of the races' numbers of winning hold times. |
| Day7.FromChar | src/day7.rs:50-59 | Accepts exactly `2`-`9`, `T`, `J`, `Q`, `K`, `A` and panics on every other character. Values are 2..14, and a digit keeps its numeric value. |
| Day7.AsChar | src/day7.rs:62-73 | Defined exactly for the joker and values 2..14. The joker shows as `*`. |
| Day7.CharRoundTrip | src/day7.rs:50-73 | `as_char(from_char(c)) == c` for every card character. |
| Day7.CardRoundTrip | src/day7.rs:50-73 | `from_char(as_char(c)) == c` for every non-joker card. |
| Day7.JokerIsLowest | src/day7.rs:43-48 | The joker sorts below every card a character can denote. |
| Day7.CountMatching | src/day7.rs:96-101 | A card's count is its multiplicity plus, for a non-joker, the number of jokers. It is at most 5 and at least 1 for a card of the hand. |
| Day7.CountsInRange | src/day7.rs:95-102 | Every count, before and after sorting, is in 1..5. |
| Day7.RankOfCounts | src/day7.rs:106-116 | The `match` takes its panic arm exactly when the largest count is outside 1..5. A largest count of 5 gives five of a kind, and 4 gives four of a kind, whatever the other counts. |
| Day7.FromCardsChecked | src/day7.rs:94-117 | The panic arm of `from_cards` is unreachable for every five cards. |
| Day7.FromCards | src/day7.rs:94-117 | No contract of its own. `Day7.FromCardsIsReference` and `Day7.FromCardsPermutationInvariant` state what it computes. |
| Day7.FromCardsIsReference | src/day7.rs:94-117 | The rank equals an independent classification based on the number of distinct non-joker cards and the largest group including jokers. |
| Day7.FromCardsPermutationInvariant | src/day7.rs:95-102 | The rank depends only on the multiset of the cards. |
| Day7.HandFromStr | src/day7.rs:146-159 | Panics exactly when one of the first five characters is not a card. Otherwise it returns `Err("Not enough cards")` on fewer than five characters, `Err("Too many cards")` on more, and on exactly five the hand of those cards with its rank. |
| Day7.ShowCards | src/day7.rs:162-169 | Shows exactly the card sequences whose cards all have a character, one character per card. |
| Day7.ShowThenParse | src/day7.rs:146-169 | Parsing a shown hand gives the hand back. |
| Day7.ParseThenShow | src/day7.rs:146-169 | Showing a parsed hand gives the text back. |
| Day7.CardsKeyOrder | src/day7.rs:120-124 | The numeric key of a card sequence orders sequences lexicographically, and equal keys mean equal sequences. |
| Day7.HandKeyOrder | src/day7.rs:82-124 | The hand key orders hands by rank first and then by cards, as the derived `Ord` does, and is injective. |
| Day7.WithJoker | src/day7.rs:127-140 | Jacks become jokers, every other card is unchanged, no jack remains, and the rank is recomputed. |
| Day7.WithJokerWithoutJacks | src/day7.rs:127-140 | A hand without jacks is unchanged. |
| Day7.WithJokerIdempotent | src/day7.rs:127-140 | Applying the rewrite twice is the same as once. |
| Day7.JokersNeverWeaken | src/day7.rs:127-140 | Turning jacks into jokers never lowers the rank. |
| Sorting.SortByKey | src/day7.rs:19 | The result is a permutation of the input in non-decreasing key order. |
| Day7.SortedByHand | src/day7.rs:18-19 | Sorting the entries gives a permutation of them in non-decreasing hand order. |
| Day7.TotalWinnings | src/day7.rs:18-25 | No contract of its own. `Day7.TotalWinningsByRank` and `Day7.TotalWinningsPermutationInvariant` state what it computes. |
| Day7.TotalWinningsByRank | src/day7.rs:16-26 | With no repeated hand, the total winnings are the sum of each bid times one plus the number of hands it beats. |
| Day7.TotalWinningsPermutationInvariant | src/day7.rs:16-26 | With no repeated hand, the total winnings do not depend on the order of the input. |
| Day7.Part1 | src/day7.rs:16-26 | No contract of its own: the total winnings of the entries as given (see `Day7.TotalWinningsByRank`). |
| Day7.Part2 | src/day7.rs:28-41 | No contract of its own: the total winnings after `with_joker` on every hand (see `Day7.TotalWinningsByRank`, `Day7.JokersNeverWeaken`). |
| Day7.SampleOnePair | src/day7.rs:94-117 | `32T3K` is one pair. |
| Day7.SampleTwoPairs | src/day7.rs:94-117 | `KK677` is two pairs. |
| Day7.SampleJokers | src/day7.rs:94-140 | `KTJJT` is two pairs, and four of a kind with jokers. |
| Day8.StartAndEnd | src/day8.rs:136-147 | `AAA` is a start node, `ZZZ` is an end node, and no node is both. |
| Day8.NodeFromStr | src/day8.rs:159-164 | Parsing succeeds exactly on three bytes and fails with "invalid node" otherwise. |
| Day8.NodeRoundTrip | src/day8.rs:159-164 | Parsing a node's bytes gives the node, and a parsed node's bytes are the input. |
| Day8.Move | src/day8.rs:115-120 | One instruction panics exactly when the current node has no entry. Otherwise `R` takes the right child and `L` the left. |
| Day8.Traverse | src/day8.rs:111-124 | A traversal returns a node or panics. With no instructions it returns the start. |
| Day8.TraverseConcat | src/day8.rs:114-121 | Traversing `a + b` is traversing `a` and then `b` from where it ends. |
| Day8.TraverseOne | src/day8.rs:114-121 | Traversing one instruction is one move. |
| Day8.WalkAdd | src/day8.rs:82-95 | `a + b` passes are `a` passes followed by `b` more. |
| Day8.CyclesAtMultiples | src/day8.rs:97-101 | A start node whose end node recurs with the same period is at that end node after every multiple of the period. |
| Day8.Part2Combine | src/day8.rs:105-108 | The combined count is `instrs.len()` when there are no start nodes. Each distance times `instrs.len()` divides it. |
| Day8.AllAtEnd | src/day8.rs:97-108 | Under the cycle checks, after the lcm of the distances every walk stands on its end node at the same time. |
| Day9.IsConstantPairwise | src/day9.rs:69-76 | A row is constant exactly when all its elements are equal; rows shorter than 2 are constant. |
| Day9.DifferenceStep | src/day9.rs:62-64 | The reverse in-place loop keeps `row[..=i]` and turns `row[i+1..]` into the differences of `row[i..]`. |
| Day9.Extrapolate | src/day9.rs:37-50 | Panics (reaches `unreachable!`) exactly on the empty row. Otherwise it returns the next value of the row. |
| Day9.ExtrapolateStep | src/day9.rs:38-48 | One round of the loop keeps the invariant that the stored last elements plus the next value of the current difference row give the answer. |
| Day9.NextOfConstant | src/day9.rs:39-40 | On a constant row, both the next and the previous value are its first element. |
| Day9.ExtrapolateBack | src/day9.rs:52-67 | Panics exactly on the empty row. Otherwise it returns the previous value of the row. |
| Day9.ExtrapolateBackStep | src/day9.rs:53-65 | One round keeps the invariant that the stored first elements, with alternating signs, plus the signed previous value of the current difference row give the answer. |
| Day9.DiffOfReverse | src/day9.rs:25-35 | The differences of a reversed row are the negated, reversed differences. |
| Day9.PrevIsNextOfReverse | src/day9.rs:25-35 | The previous value of a row is the next value of its reverse. |
| Day9.Part1 | src/day9.rs:13-17 | Panics exactly when some row is empty. |
| Day9.Part2 | src/day9.rs:19-23 | Panics exactly when some row is empty. |
| Day9.Part2Reverse | src/day9.rs:25-35 | Panics exactly when some row is empty. |
| Day9.Part2Agree | src/day9.rs:19-35 | The two registered part 2 solutions give the same result on every input. |

## Left out

- `aoc_runner_derive` attributes, and the `lines`/`split_once`/`strip_prefix`/`parse` plumbing of every `parse_input`, are left out. A game, card, race, row or node map arrives already parsed. The exceptions are day 1's split at newlines and day 3's scanner, which are modelled.
- Fixed-width overflow is left out. This covers the `u32`/`usize`/`i32`/`u64` sums and products of the puzzles, day 9's subtraction, day 6's `(time - t) * t`, `1 << (count - 1)` in day 4, `lcm`, and the `u32` parse of day 3's numbers. Only `midpoint` models widths.
- `gcd` on negative numbers (Rust's truncated `%`) is left out; `Num` is over `nat`.
- The generic `Int` and `Midpoint` traits and their `impl_*` macros are left out. One integer domain is modelled.
- The unbounded `while` walks of day 8 `part1` and `part2` (src/day8.rs:59-62, 80-95) are left out. Their termination depends on the input. Day 8 takes the per-start distances as given and proves what the two `assert_eq!`s buy: the lcm of the distances puts every walk on its end node. `HashMap` is a Dafny `map`.
- Sorting.SortByKey: the internals of `sort_by_cached_key` are left out. The model is a stable insertion sort, but its contract states only that the result is a sorted permutation, not that equal keys keep their input order.
- `Debug` formatting is left out. `Day7.ShowCards` is kept because it is the inverse of `Hand::from_str`.
- Day 6 `part2`'s string concatenation via `write!` is left out.
- Non-ASCII input to the day 3 scanner is left out. Columns count characters, which is what the code's byte offsets are for ASCII lines.
- Day7.TotalWinningsByRank: proved only when no hand repeats. With equal hands, which bid gets which position depends on the stable order of the input. The lemma does not characterise that.
- Day8.Part2Combine: does not prove that the result is independent of the order of the start nodes (it is, since lcm is commutative and associative). Only divisibility by every distance is stated.
- Num.LcmAll: states divisibility by each element and positivity, not minimality among common multiples.
- BinarySearch.Midpoint: the doc comment at src/utils/binary_search.rs:43 reads "`self >= self.midpoint(other) >= self`". That is evidently meant to say `self >= mid >= other`, which is what the model proves.
- BinarySearch.SquareRootOf50Boundary: for a target between two integers, the code returns `Err` with the last value below the target (7 for 50 in `0..100`). It does not return the first value above the target (8). The model follows the code.

## Findings

| source | as written | input that shows it | evidently intended | confidence | as-written member | corrected member |
|---|---|---|---|---|---|---|
| src/utils/binary_search.rs:53-59 | the signed `midpoint` computes `other - self` (or `self - other`) in the signed type itself | `i8`: `(-128).midpoint(&127)` needs `127 - (-128) = 255`, which is not an `i8` (a panic in debug builds, a wrong result in release) | take the gap as the unsigned type of the same width (`abs_diff`), which always fits, and return `min + gap / 2` = -1 | not executed | BinarySearch.CheckedSignedMidpoint, BinarySearch.SignedMidpointOverflows | BinarySearch.SignedMidpoint |
