# Advent of Code 2020, days 1 to 20, in Dafny

This project models the puzzle solutions of the aoc2020 Rust crate (`src/day1.rs` to `src/day20.rs`; day 16 is not modelled) and proves what they compute. Each day is one module, `Day1` to `Day20`, in its own file. `Common` holds the standard-library routines the solutions lean on, stated once: `Option`, decimal parsing (`str::parse`), `trim`, `split`, `lines`, `split_whitespace` and sums.

The model follows the source's own form:

- Pure generators, validators and parsers are functions with named results and contracts.
- Loops that update variables are methods with invariants, proved equal to a specification function. Examples are `Day1.Part1`, `Day9.CalcValidNumbers`, `Day10.Part1`, `Day11.SimulateMove`, `Day17.Cycle`, `Day18.SolveExpression2` and `Day20.CalculateSides`.
- The ship of day 12 is a class whose methods update its heading and position.
- The memo of day 19 is a class whose map only grows.
- Day 15's vector game keeps its `array`.

A `panic!`, `unwrap` or `expect` that the source can reach becomes a `None` result, never a precondition. Where the source loops forever on some input, the model takes a ghost bound or rank as a precondition. Lemmas then connect each operation to a partner: an inverse (generators against printers), an independent definition (the game rules of day 15, the evaluation order of day 18, the bit-level meaning of the masks of day 14 and the edges of day 20), or an invariant. The unit tests of the source are proved as lemmas wherever the verifier can evaluate them.

Where the code and its written description disagree, the model follows the code:

- Day 13, part 2, is the brute-force loop of `src/day13.rs:62-66` (stepping through multiples of the first bus's id). It is not a Chinese-remainder solver.
- Day 19 wraps alternatives as "(?:…)", as the `format!` at `src/day19.rs:46` does. The older unit tests (`src/day19.rs:123-171`) expect "(…)"; the lemmas for them state the "(?:…)" text the code produces.

## Model

| member | source | states |
|---|---|---|
| Day1.Part1 | src/day1.rs:11-21 | the product of the first pair (in the loops' order, the second index from the first on) that sums to 2020; `None` (the `unimplemented!` panic) exactly when no pair does |
| Day1.Part2 | src/day1.rs:23-35 | the product of the first triple in the loops' order that sums to 2020, with the third index starting at the second loop's offset; `None` exactly when none does |
| Day1.SortedTriplesReached | src/day1.rs:25-32 | every triple of positions in non-decreasing order is among those the loops try |
| Day1.EarlierThirdPositionReached | src/day1.rs:25-32 | the third loop also tries positions before the second number's, since it skips by the second loop's offset and not its position |
| Day2.DigitPrefixLength | src/day2.rs:7 | the run of ASCII digits that `\d+` takes: all digits, and the next character (if any) is not one |
| Day2.DigitPrefixOf | src/day2.rs:7 | a digit run followed by a non-digit is taken whole |
| Day2.ParseFormat | src/day2.rs:7-42 | a policy line "min-max letter: password" built from a record parses back to that record |
| Day2.ParseLineShape | src/day2.rs:7-42 | a line the pattern accepts yields a lower-case letter and a non-empty password of word characters |
| Day2.InputGenerator | src/day2.rs:45-52 | one record per line, each the parse of its line; `None` (the source's `unwrap` panic) exactly when some line does not match |
| Day2.Occurrences | src/day2.rs:59 | the number of positions of the password holding the letter |
| Day2.Part1 | src/day2.rs:55-63 | the number of records whose letter count lies in [min, max] |
| Day2.ValidPart2 | src/day2.rs:69-92 | defined exactly when both 1-based positions lie in the password (else the `unwrap` / `0 - 1` panic); then true iff exactly one position holds the letter |
| Day2.Part2 | src/day2.rs:66-95 | `None` iff some record panics; otherwise the number of records accepted by the position rule |
| Day2.OccurrencesUniform | src/day2.rs:59 | a password made only of the letter counts its full length |
| Day2.SampleRecordsPart1 | src/day2.rs:58-61 | the three puzzle sample records: first and third accepted, second rejected |
| Day2.SamplePart1 | src/day2.rs:55-63 | the puzzle sample gives 2 under part 1 |
| Day2.SamplePart2 | src/day2.rs:66-95 | the puzzle sample gives 1 under part 2 |
| Day3.VisitsCount | src/day3.rs:35 | `step_by(skip)` visits row k·skip exactly for the k with k·skip below the row count |
| Day3.ColumnStep | src/day3.rs:39-40 | adding the slide and reducing modulo the width keeps the column at k·slide mod width |
| Day3.VisitStep | src/day3.rs:35-41 | one loop turn on a square inside the map: the visit is counted and the tree count grows by the square's tree |
| Day3.GetTreesOnSlope | src/day3.rs:29-44 | the loop returns `SlopeTrees`: the number of '#' on rows 0, s, 2s, … at column k·slide mod width (width of the first row); `None` where the source panics (empty map, skip 0, a visited row too short) |
| Day3.SlopeTreesBound | src/day3.rs:35-38 | the count is at most the number of visited rows, hence at most the number of rows |
| Day3.PartOneIts | src/day3.rs:15-27 | the `cycle` loop returns `CycleTrees`: '#' count at column 3k mod the row's own length on row k; `None` on an empty row |
| Day3.CycleAgreesWithSlope | src/day3.rs:9-27 | on rows of one non-zero width the `cycle` variant equals `get_trees_on_slope(input, 3, 1)` |
| Day3.CycleAgreesBefore | src/day3.rs:15-27 | the same agreement for every prefix of the rows |
| Day3.SlopeProductCases | src/day3.rs:47-54 | the product over slopes is defined iff every slope's count is, and is 0 iff some slope meets no tree |
| Day3.Part2 | src/day3.rs:47-54 | the loop returns the product of the counts over (1,1), (3,1), (5,1), (7,1), (1,2) |
| Day3.TestBasic | src/day3.rs:60-66 | the 2-row test map gives 1 |
| Day3.TestWrapping | src/day3.rs:68-77 | the wrapping test map gives 2 |
| Day3.TestLineSkip | src/day3.rs:79-90 | the line-skip test map with slope (2, 2) gives 2 |
| Day3.ExampleTrees | src/day3.rs:92-106 | on the 11×11 example map, the count along a slope with skip 1 is the number of its squares that hold a tree |
| Day3.ExampleSlope1 | src/day3.rs:92-111 | the example gives 2 for slope (1,1) |
| Day3.ExampleSlope3 | src/day3.rs:92-111 | the example gives 7 for slope (3,1) |
| Day3.ExampleSlope5 | src/day3.rs:92-111 | the example gives 3 for slope (5,1) |
| Day3.ExampleSlope7 | src/day3.rs:92-111 | the example gives 4 for slope (7,1) |
| Day3.ExampleSlopeSkip | src/day3.rs:92-111 | the example gives 2 for slope (1,2) |
| Day3.ExamplePart2 | src/day3.rs:107-111 | the example's product over the five slopes is 336 |
| Day4.Groups | src/day4.rs:6-11 | splitting at `\n\s*\n` and then on whitespace yields at least one passport, each a list of non-empty words without whitespace |
| Day4.RunConcat | src/day4.rs:6-11 | scanning x then y is scanning x + y |
| Day4.RunWords | src/day4.rs:8-11 | the scan neither loses nor invents words: the words of all passports, the open one and the pending word are, in order, the input's words |
| Day4.GroupsWords | src/day4.rs:8-11 | all passports together hold exactly `split_whitespace` of the input, in order |
| Day4.BlankLineSeparates | src/day4.rs:6-9 | a blank line between two texts separates their passports: groups of a + "\n\n" + b are the groups of a followed by the groups of b |
| Day4.RunAfterBlank | src/day4.rs:6-9 | after a blank line the rest scans as from the start, behind the passports already closed |
| Day4.RunWhitespace | src/day4.rs:6 | a whitespace stretch closes the pending word, counts its newlines and closes no passport |
| Day4.BlankStretchSeparates | src/day4.rs:6-9 | any whitespace stretch with two or more newlines between two texts (what `\n\s*\n` matches) separates their passports |
| Day4.RunOneGroup | src/day4.rs:6-9 | scanning text in which no whitespace stretch holds two newlines closes no passport |
| Day4.OneGroup | src/day4.rs:6-11 | text in which no whitespace stretch holds two newlines is a single passport holding all of its words, the converse of the separation lemmas |
| Day4.Interleave | src/day4.rs:6-9 | passport texts joined by separators end with the last text |
| Day4.PassportWords | src/day4.rs:10-11 | one word list per passport text, the `split_whitespace` of that text |
| Day4.GroupsOfPassports | src/day4.rs:96-112 | passport texts without blank stretches or outer whitespace, joined by blank stretches, give exactly one passport per text holding that text's words, as in the multi-passport generator test |
| Day4.LastColon | src/day4.rs:7 | the greedy `(.*):` takes the last ':' of the word; none when the word has no ':' |
| Day4.SplitField | src/day4.rs:7-18 | a word splits into key and value around its last ':' exactly when it holds one (else the `unwrap` panics) |
| Day4.SplitFieldJoin | src/day4.rs:7 | key + ":" + value with no ':' in the value splits back into (key, value) |
| Day4.ToPassport | src/day4.rs:10-19 | a passport is built exactly when every word has a ':' |
| Day4.ToPassportKeys | src/day4.rs:10-19 | the passport's keys are exactly the keys of its words |
| Day4.ToPassportLastWins | src/day4.rs:19 | collecting into the `HashMap`, the last word with a key gives that key's value |
| Day4.InputGenerator | src/day4.rs:5-22 | one passport per group, each built from its group; `None` exactly when some word has no ':' |
| Day4.Part1 | src/day4.rs:25-31 | the number of passports holding all seven required keys |
| Day4.Part1IgnoresOtherKeys | src/day4.rs:26-29 | adding or removing a key outside the seven (such as cid) does not change acceptance |
| Day4.IntCheck | src/day4.rs:36-39 | `None` exactly when the value does not parse as a number; otherwise whether it lies in [min, max] inclusive |
| Day4.HeightCheckFormat | src/day4.rs:41-56 | a height written as number + "cm" passes iff 150 ≤ n ≤ 193, with "in" iff 59 ≤ n ≤ 76 |
| Day4.CheckField | src/day4.rs:65-75 | a panic (`None`) only for a key outside the known eight or a year that does not parse; cid always passes |
| Day4.OrderIrrelevantWithoutPanic | src/day4.rs:65 | when no entry panics, the `HashMap` iteration order does not matter: the passport passes iff every entry passes |
| Day4.CheckInOrderAll | src/day4.rs:65-75 | `all` over an order whose entries never panic is the conjunction of their checks |
| Day4.PanicWithoutFailure | src/day4.rs:65-75 | when some entry panics and none fails, part 2 panics whatever the iteration order |
| Day4.CheckInOrderPanics | src/day4.rs:65-75 | `all` reaches a panicking entry when no earlier entry fails |
| Day4.Part2 | src/day4.rs:34-78 | `None` exactly when a passport with all seven keys has an entry that panics before one fails; otherwise the number of passports with the seven keys whose every entry passes |
| Day4.YearExamples | src/day4.rs:66-68 | byr 2002 passes and 2003 fails, and the other year bounds likewise |
| Day4.PanicExamples | src/day4.rs:37-74 | a year that does not parse and an unknown key both panic |
| Day4.HeightExamples | src/day4.rs:44-56 | 60in and 190cm pass |
| Day4.HeightCounterExamples | src/day4.rs:44-56 | 190in and 190 (no unit) fail |
| Day4.ColorAndIdExamples | src/day4.rs:42-72 | hair colour, eye colour and passport id samples pass or fail as the patterns say |
| Day5.SearchFrom | src/day5.rs:19-31 | the partition walk is undefined (the `panic!`) exactly when some character is neither the bottom nor the upper one |
| Day5.Search | src/day5.rs:8-32 | the loop halving `sub` returns the walk's result from min = lowest, sub = highest + 1 |
| Day5.BinaryValue | src/day5.rs:8-32 | a pass read in binary (upper character = 1) is below 2^length |
| Day5.SearchIsBinary | src/day5.rs:8-32 | with sub = 2^length the search returns min plus the pass read in binary |
| Day5.SearchRange | src/day5.rs:8-32 | the result lies in [min, min + sub − 1] |
| Day5.SearchZero | src/day5.rs:19-20 | once sub is 0 the result stays min |
| Day5.CalculateSeatId | src/day5.rs:34-40 | returns row·8 + column from the first seven and the remaining characters; `None` where `split_at` or `search` panics |
| Day5.SeatIdBinary | src/day5.rs:34-40 | a well-formed pass's id is its rows read in binary (B = 1) times 8 plus its column read in binary (R = 1), below 1024 |
| Day5.MaxSeat | src/day5.rs:44 | the largest of the passes' ids, and one of them |
| Day5.MinSeat | src/day5.rs:51 | the smallest of the passes' ids, and one of them |
| Day5.Part1 | src/day5.rs:43-45 | the highest id; `None` (the panics) for no passes or a bad pass |
| Day5.Part2 | src/day5.rs:48-60 | the least id in [min, max) missing from the known ids; `None` exactly for no passes, a bad pass, or no gap |
| Day5.TestGivenRow | src/day5.rs:66-71 | FBFBBFF gives row 44 |
| Day5.TestGivenColumn | src/day5.rs:73-78 | RLR gives column 5 |
| Day5.PassValue | src/day5.rs:34-40 | the id from the row and column values |
| Day5.TestCalculateSeatId | src/day5.rs:80-85 | FBFBBFFRLR gives id 357 |
| Day5.PassId567 | src/day5.rs:90 | BFFFBBFRRR gives 567 |
| Day5.PassId119 | src/day5.rs:91 | FFFBBBFRRR gives 119 |
| Day5.PassId820 | src/day5.rs:92 | BBFFBBFRLL gives 820 |
| Day5.TestPart1 | src/day5.rs:87-96 | part 1 on the three passes gives 820 |
| Day6.GroupsFrom | src/day6.rs:7-8 | the split on `\n\n+`: at least one group, none holding two newlines in a row |
| Day6.Groups | src/day6.rs:6-9 | `input_generator`: at least one group, none holding a separator |
| Day6.GroupsFromCut | src/day6.rs:7-8 | a maximal run of two newlines between a and b is exactly one cut |
| Day6.GroupsOfJoin | src/day6.rs:6-9 | splitting undoes joining with blank lines: plain groups come back one for one |
| Day6.ExampleGenerator | src/day6.rs:42-62 | the generator test's text yields its five groups |
| Day6.Part1 | src/day6.rs:12-17 | the sum over groups of the distinct answers with newlines removed; at least every single group's count |
| Day6.Shared | src/day6.rs:29-32 | the fold of intersections over the lines holds exactly the characters found on every line |
| Day6.GroupLines | src/day6.rs:24-27 | each group mapped to its lines |
| Day6.Everyone | src/day6.rs:28-34 | a group's count is undefined (`first().unwrap()` panics) exactly when it has no line |
| Day6.Counts | src/day6.rs:28-34 | each group's lines mapped to its count |
| Day6.Total | src/day6.rs:35 | the sum is undefined exactly when some count is |
| Day6.GroupLinesEmpty | src/day6.rs:24-29 | a group's count is missing exactly when the group is empty |
| Day6.Part2 | src/day6.rs:20-36 | `None` (the panic) exactly when some group is empty; otherwise the sum of the answers everyone in a group gave |
| Day6.EveryoneWithinAnyone | src/day6.rs:15-32 | per group, the part-2 count is at most the part-1 count |
| Day6.Part2AtMostPart1 | src/day6.rs:12-36 | part 2 never exceeds part 1 |
| Day6.AnswersExamples | src/day6.rs:66-72 | the distinct answers of the example groups: 3, 3, 1, 1 |
| Day6.ExamplePart1 | src/day6.rs:64-76 | the part-1 test gives 11 |
| Day6.EveryoneOfGroups | src/day6.rs:80-86 | the part-2 counts of the example groups: 3, 0, 1, 1, 1 |
| Day6.ExamplePart2 | src/day6.rs:78-90 | the part-2 test gives 6 |
| Day7.RunEnd | src/day7.rs:17 | the end of the greedy run of letters from `i`: every character before it qualifies and the one at it (if any) does not |
| Day7.RunEndSlice | src/day7.rs:17-21 | a run measured inside a slice ends where the run in the whole string ends, cut at the slice's end |
| Day7.PairEndName | src/day7.rs:17-21 | every match of `[a-z]+ [a-z]+` found at a position is a two-word lower-case bag name |
| Day7.WordPairsFrom | src/day7.rs:17-21 | every match `find_iter` collects is a two-word bag name |
| Day7.Contained | src/day7.rs:25-26 | the names after the container never include "bags contain" or "no other" |
| Day7.AddContainerSpec | src/day7.rs:27-32 | after the update, a bag has an entry exactly when it had one or is named in the rule, and its holders are the old holders plus the container exactly when it is named |
| Day7.ParseRule | src/day7.rs:16-33 | the new holder map is the rule's update of the old one; `None` (the `unwrap` panic) exactly when the line has no bag name at all |
| Day7.ReachedStep | src/day7.rs:62-64 | one loop iteration of `count_containers` adds exactly the containers of the bag it visits |
| Day7.ContainersReached | src/day7.rs:59-66 | the containers of a bag with holders are its direct holders plus everything reached from them |
| Day7.CountContainers | src/day7.rs:55-70 | the returned set is the set of containers of the bag (the empty set for a bag nobody holds) |
| Day7.ChainIsContainer | src/day7.rs:55-70 | the far end of every chain of "is held by" steps from a bag is among its containers |
| Day7.ContainerChain | src/day7.rs:55-70 | every container of a bag is the far end of such a chain, so containers are exactly the chain ends |
| Day7.HoldingsPrefix | src/day7.rs:76-78 | once a line panics, reading further lines panics too |
| Day7.Part1 | src/day7.rs:72-83 | the answer is the number of containers of "shiny gold" after all lines are read, and `None` exactly when some line panics |
| Day7.RuleAt | src/day7.rs:36 | a match of `\d+ \w+ \w+` at a position carries a non-empty bag name |
| Day7.FirstFromSpec | src/day7.rs:44 | `captures` finds nothing exactly when no position matches, and otherwise returns the leftmost match |
| Day7.FindFrom | src/day7.rs:37 | the first occurrence of the separator at or after a position: it occurs there and nowhere before |
| Day7.RulesOfMembers | src/day7.rs:42-50 | a rule is in the collected set exactly when some part captured it |
| Day7.RulesOfDistinct | src/day7.rs:42-50 | the collected rules are distinct, as in the source's `HashSet` |
| Day7.Captures | src/day7.rs:43-44 | one capture per comma-separated part, each the capture of that part |
| Day7.ParseRule2 | src/day7.rs:35-53 | `None` (the second `expect` panic) exactly when the line never contains "bags contain" |
| Day7.CountContained | src/day7.rs:84-92 | a count exists only for a bag with an entry of its own (the `unwrap` panics otherwise), and it is at least the count of each of the bag's rules |
| Day7.SumRules | src/day7.rs:86-91 | a sum over rules, when it exists, is at least the count of each rule summed |
| Day7.Part2 | src/day7.rs:94-102 | a value exists only when every line parses and "shiny gold" has an entry, and it is at least the count of each of its rules |
| Day7.SumRulesMissing | src/day7.rs:85-92 | one rule whose bag has no entry makes the whole sum panic |
| Day7.SumRulesWitness | src/day7.rs:85-92 | a sum that panics has a rule whose count panics |
| Day7.WalkToMissing | src/day7.rs:85-92 | a bag from which a walk along the rules reaches a bag without an entry panics |
| Day7.MissingWalk | src/day7.rs:85-92 | a bag whose count panics has such a walk, so `count_contained` panics exactly when one exists |
| Day7.SumRulesAppend | src/day7.rs:90-91 | each further rule adds its count plus its count times the count of its bag |
| Day7.CountOne | src/day7.rs:85-92 | a bag with a single rule holds its count plus count times the inner bag's total |
| Day7.CountTwo | src/day7.rs:85-92 | a bag with two rules holds the sum of both rules' contributions |
| Day7.ExampleCount32 | src/day7.rs:165-184 | the first example's rules give 32 bags inside shiny gold |
| Day7.ExampleCount126 | src/day7.rs:186-202 | a chain of seven bags, each holding two of the next, gives 126 |
| Day7.ExampleCount6 | src/day7.rs:204-216 | the small example gives 6 |
| Day7.ExampleContainers4 | src/day7.rs:144-163 | the example's holders give 4 containers of shiny gold |
| Day7.ContainersPair | src/day7.rs:59-66 | the containers of a bag held by two bags are those two plus their containers |
| Day8.ParseSignedText | src/day8.rs:11-14 | the signed decimal text of any number parses back to that number |
| Day8.LineToOpCodeRoundTrip | src/day8.rs:8-22 | every instruction written as "op ±n" parses back to itself |
| Day8.UnknownMnemonic | src/day8.rs:16-21 | a line whose first word is not `nop`, `acc` or `jmp` is rejected (the source's panic) |
| Day8.VisitedMembers | src/day8.rs:87-89 | the visited set holds exactly the counters of the steps run so far |
| Day8.FreshAt | src/day8.rs:89-92 | every step of a fresh run is inside the program and not seen before |
| Day8.RepeatNotFresh | src/day8.rs:89 | a run that repeats a counter is not fresh |
| Day8.Mark | src/day8.rs:89 | marking a counter visited leaves one fewer unvisited instruction exactly when it was new and inside |
| Day8.Part1Step | src/day8.rs:89-105 | one loop iteration extends the fresh run by one step and shrinks the unvisited count |
| Day8.Part1 | src/day8.rs:82-109 | the result is the accumulator at the first step that repeats an instruction; `None` (the `expect` panic) only when the counter leaves the program first |
| Day8.LoopsUnique | src/day8.rs:89 | there is only one step count at which the first repeat happens |
| Day8.LoopsNotExits | src/day8.rs:89-92 | a program that repeats an instruction never leaves it from the start |
| Day8.RunUntilLoopOrExit | src/day8.rs:33-75 | the loop computes the recursive search: at each `nop`/`jmp`, first the rest of the run with that one swapped, else the step itself |
| Day8.Part2 | src/day8.rs:77-80 | the answer is the accumulator of a halting run of the program as given or with one `nop`/`jmp` swapped; `None` (the `unwrap` panic) exactly when no such run halts |
| Day8.RunAdd | src/day8.rs:45-72 | running m then n steps is running m + n steps |
| Day8.RunShift | src/day8.rs:39-51 | starting with a non-zero accumulator adds it to the result, which is why the branch result is added to `acc` |
| Day8.PatchAgrees | src/day8.rs:41-43 | a swapped program runs as the original until it reaches the swapped instruction |
| Day8.SearchStep | src/day8.rs:45-67 | one iteration: a halting swapped run wins, otherwise the search continues after the instruction's own step |
| Day8.SearchSound | src/day8.rs:33-75 | every answer the search gives is the accumulator of a halting run with at most one swap |
| Day8.SearchComplete | src/day8.rs:33-75 | when the search gives nothing, neither the program nor any one-swap repair of it halts |
| Day8.CyclesNeverHalt | src/day8.rs:45 | a run that comes back to a counter never halts |
| Day8.LoopNeverHalts | src/day8.rs:45-72 | a run that loops before reaching a swap position loops with the swap too |
| Day8.SwapNone | src/day8.rs:41-43 | a swapped run that the search finds looping never halts |
| Day8.ExampleParses | src/day8.rs:114-122 | the example's nine lines parse to the example program |
| Day8.ExampleLoops | src/day8.rs:114-126 | the example's first repeat comes after 7 steps with accumulator 5 |
| Day8.ExamplePart1 | src/day8.rs:114-126 | part 1 on the example is 5 |
| Day8.ExamplePart2 | src/day8.rs:128-140 | part 2 on the example is 8 |
| Day9.Window | src/day9.rs:16 | `skip(c).take(n)` yields at most n numbers |
| Day9.RowSumsMembers | src/day9.rs:17-21 | one pass of the inner loop inserts exactly the sums of the current number with each later one |
| Day9.PairSumsBelowMembers | src/day9.rs:17-21 | after the outer `while let` has taken a numbers, the set holds exactly the sums of one of them with a later one |
| Day9.PairSumsMembers | src/day9.rs:17-21 | the sums of a window are exactly the sums of two of its numbers at different positions |
| Day9.PairSumsAbove | src/day9.rs:17-21 | a window whose numbers are all at least lo has no pair sum below 2 lo |
| Day9.AddPairSums | src/day9.rs:16-21 | the nested loops add exactly the window's pair sums to the set |
| Day9.UnionsMembers | src/day9.rs:15 | the union over positions start.. start + n holds exactly what some position contributes |
| Day9.CalcValidNumbers | src/day9.rs:13-25 | the set is the union of the pair sums of the p windows that start at start, start + 1, ..., start + p - 1 |
| Day9.PreambleSums | src/day9.rs:16-21 | the pair sums of the single window of length p at start, which is what a preamble check needs |
| Day9.PreambleWithinWindows | src/day9.rs:13-25 | the as-written set contains the intended one, so it can only accept more |
| Day9.FirstOutsideSpec | src/day9.rs:27-36 | `filter(..).next()` finds nothing exactly when every number is accepted, and otherwise the first one that is not |
| Day9.FindInvalidNumberAsWritten | src/day9.rs:27-36 | the first number after the preamble that the as-written windows do not accept; `None` where `unwrap` panics |
| Day9.FindInvalidNumber | src/day9.rs:27-36 | the first number after the preamble that is not a sum of two of the p numbers before it |
| Day9.WindowsReachPast | src/day9.rs:13-25 | on [5, 0, 7] with preamble 2 the as-written windows accept 7 while the preamble sums do not |
| Day9.SumWithin | src/day9.rs:51 | a sum of non-negative numbers over a sub-range is no larger than over the range |
| Day9.FirstRunUnique | src/day9.rs:46-62 | the leftmost, shortest contiguous run summing to the target is unique |
| Day9.WeaknessOfFirstRun | src/day9.rs:43-63 | any result meeting the weakness contract is the weakness of that run |
| Day9.MinOf | src/day9.rs:58 | the smallest number of the range: one of them and no larger than any |
| Day9.MaxOf | src/day9.rs:59 | the largest number of the range: one of them and no smaller than any |
| Day9.PastRun | src/day9.rs:54-56 | once a run from start sums above the target, no longer run from there hits it |
| Day9.NoLaterRun | src/day9.rs:52-53 | when everything from start on sums below the target, no run from there or later hits it |
| Day9.WeaknessSearch | src/day9.rs:46-62 | the sliding search finds no run exactly when none sums to the target, and otherwise returns smallest plus largest of the leftmost shortest one |
| Day9.SlideWindow | src/day9.rs:49-62 | the loop stops at the first window summing to the target, or at the end with a smaller sum, having skipped no run |
| Day9.SearchGrows | src/day9.rs:52-53 | growing a window that sums below the target skips no run |
| Day9.SearchRestarts | src/day9.rs:54-56 | moving the start past a window that sums above the target skips no run |
| Day9.SearchFails | src/day9.rs:52-53 | a window at the end that still sums below the target means no run exists |
| Day9.SearchFound | src/day9.rs:57-60 | the window the loop stops on is the leftmost, shortest run |
| Day9.WindowWeakness | src/day9.rs:58-60 | smallest plus largest of the window is the run's weakness |
| Day9.FindEncryptionWeaknessAsWritten | src/day9.rs:43-63 | the weakness for the as-written target: `None` when there is no target or no run sums to it, otherwise smallest plus largest of the leftmost shortest run |
| Day9.FindEncryptionWeakness | src/day9.rs:43-63 | the same, for the intended target |
| Day9.GeneratorRoundTrip | src/day9.rs:3-11 | a list written one number per line reads back unchanged |
| Day9.CalcExample | src/day9.rs:76-85 | from [1, 2, 3, 4, 5] with preamble 5 the set contains 3 and 9 and not 1, 2 or 10 |
| Day9.FirstOutsideSkip | src/day9.rs:28-33 | a run of accepted numbers can be skipped without changing the first rejected one |
| Day9.ExamplePart1 | src/day9.rs:87-112 | the example's first invalid number is 127 |
| Day9.ExampleFirstRun | src/day9.rs:114-139 | the run summing to 127 starts at position 2 and has length 4, with weakness 62 |
| Day9.ExamplePart2 | src/day9.rs:114-139 | the example's encryption weakness is 62 |
| Day9.ExamplePassesOverAsWritten | src/day9.rs:13-25 | on the example the as-written windows accept positions 5 to 13, as the preamble sums do |
| Day9.ExampleStopsAsWritten | src/day9.rs:13-25 | on the example the as-written windows at position 14 cover numbers no two of which sum to 127 |
| Day9.ExamplePart1AsWritten | src/day9.rs:87-112 | the source's own `find_invalid_number`, over its windows, finds 127 on the example as the test expects |
| Day9.ExamplePart2AsWritten | src/day9.rs:114-139 | the source's own `find_encryption_weakness`, with the as-written target, gives 62 on the example as the test expects |
| Day10.Insert | src/day10.rs:9 | putting a number into a sorted list keeps it sorted and adds exactly that number |
| Day10.Sort | src/day10.rs:9 | `sort_unstable`: the result is sorted and a permutation of the input |
| Day10.SortedUnique | src/day10.rs:9 | two sorted permutations of the same numbers are equal, so any stable or unstable sort gives the same list |
| Day10.InputGenerator | src/day10.rs:1-12 | the parsed numbers, sorted, with 0 put in front: sorted, starting at 0, and a permutation of 0 plus the numbers |
| Day10.Part1 | src/day10.rs:14-23 | ones times (threes + 1); `None` (the index or subtraction panic) exactly when two neighbours differ by something outside 1..3 |
| Day10.GapsCount | src/day10.rs:17-20 | with steps of 1 to 3, the histogram counts every one of the neighbour pairs (one fewer than the length) |
| Day10.GapsRise | src/day10.rs:17-20 | ones + 2 twos + 3 threes is the rise from the first number to the last |
| Day10.StepsFromSmall | src/day10.rs:17-20 | the recursive check of the steps covers every neighbour pair after it |
| Day10.GapsFromWindows | src/day10.rs:17-20 | counting from the front and from the back give the same histogram |
| Day10.ExampleSmallSteps | src/day10.rs:29-65 | the example's sorted chain moves by 1 to 3 at every step |
| Day10.ExampleOnes | src/day10.rs:29-65 | the example's chain has 22 steps of 1 |
| Day10.ExampleThrees | src/day10.rs:29-65 | the example's chain has 9 steps of 3 |
| Day10.ExamplePart1 | src/day10.rs:29-65 | part 1 on the example's chain is 220 |
| Day11.ParseRow | src/day11.rs:13-22 | one tile per character, each the tile its character stands for |
| Day11.ParseRowRejects | src/day11.rs:16-21 | a line is rejected (the source's panic) exactly when it holds a character other than '#', '.' and 'L' |
| Day11.ParseRows | src/day11.rs:9-25 | one row per line, each the parse of the trimmed line; a failure only where some trimmed line is rejected |
| Day11.InputGenerator | src/day11.rs:8-25 | one row per line of the input, each the parse of its trimmed line; `None` (the panic) only when some trimmed line holds a character other than '#', '.' and 'L' |
| Day11.ParseRowText | src/day11.rs:16-21 | a row written with '#', '.' and 'L' parses back to itself |
| Day11.ParseRowsOfLines | src/day11.rs:9-25 | a grid written line by line parses back to itself |
| Day11.GeneratorRoundTrip | src/day11.rs:9-25 | a grid written as newline-separated text reads back unchanged |
| Day11.At | src/day11.rs:66-68 | a cell is found exactly when both indices are on the grid, so a negative or too large index finds nothing |
| Day11.OccupiedAmong | src/day11.rs:65-73 | the count over a list of offsets is at most the number of offsets |
| Day11.CountOccupiedAdjacent | src/day11.rs:58-74 | at most 8 neighbours are occupied |
| Day11.ReachedMembers | src/day11.rs:65-72 | the occupied cells reached through the offsets are exactly the occupied cells at some offset |
| Day11.OccupiedAmongCard | src/day11.rs:65-73 | with distinct offsets the count is the number of distinct occupied cells reached |
| Day11.OffsetsAround | src/day11.rs:59-64 | every offset the source tries is in -1..1 in both directions and not (0, 0) |
| Day11.OffsetIndex | src/day11.rs:59-64 | every such offset is among those tried |
| Day11.OffsetsDistinct | src/day11.rs:59-64 | no offset is tried twice |
| Day11.CountIsOccupiedAround | src/day11.rs:58-74 | the count is the number of occupied cells among the eight neighbours on the grid |
| Day11.CountZero | src/day11.rs:58-74 | the count is 0 exactly when no neighbour is occupied |
| Day11.Step | src/day11.rs:76-104 | a round keeps the number of rows and each row's length |
| Day11.StepCell | src/day11.rs:82-98 | floor stays floor; a cell becomes occupied exactly when it was empty with no occupied neighbour or occupied with fewer than 4; a seat stays a seat |
| Day11.StableIff | src/day11.rs:82-98 | a round changes nothing exactly when no empty seat has zero occupied neighbours and no occupied seat has 4 or more |
| Day11.GridsDiffer | src/day11.rs:76-104 | two grids of the same shape differ exactly when some cell differs |
| Day11.SimulateMove | src/day11.rs:76-104 | the new grid is one round of the rules applied to every cell at once, and the flag is true exactly when it differs from the old grid |
| Day11.Settle | src/day11.rs:45-51 | a grid the repeated rounds stop at is one a round leaves unchanged |
| Day11.SettleFuel | src/day11.rs:45-51 | more rounds allowed give the same settled grid |
| Day11.StepLayout | src/day11.rs:82-98 | a round keeps the floor where it is |
| Day11.SettleLayout | src/day11.rs:45-51 | the settled grid has the floor where the input has it |
| Day11.RowOccupied | src/day11.rs:52-55 | a row has at most as many occupied seats as cells |
| Day11.Part1 | src/day11.rs:41-56 | the number of occupied seats once the rounds stop changing the grid |
| Day11.ExampleCounts | src/day11.rs:120-132 | on the 3×3 test grid the counts are 4 at the centre and 2 at column 0 of row 1 |
| Day12.Move | src/day12.rs:28-36 | a direction instruction moves the ship and never changes its facing |
| Day12.U16Angle | src/day12.rs:39-43 | the angle after `as u16` is below 2^16 and equals the angle when that fits |
| Day12.Turn | src/day12.rs:38-46 | a turn leaves the position alone, keeps the facing in [0, 360), and adds the angle (d for R, 360 - d for L) modulo 360 |
| Day12.Heading | src/day12.rs:48-55 | forward at facing 0, 90, 180 or 270 is a move north, east, south or west by the same distance |
| Day12.Ship.constructor | src/day12.rs:65-72 | a new ship faces 90 (east) at (0, 0) |
| Day12.Ship.TravelByDirection | src/day12.rs:28-36 | the ship's new state is the move applied to the old one |
| Day12.Ship.Rotate | src/day12.rs:38-46 | the ship turns when the u16 sum fits and reports failure (the overflow panic) otherwise, leaving the state as it was |
| Day12.Ship.TravelByFacing | src/day12.rs:48-57 | the ship moves along its facing, or reports failure (the panic) at a facing that is not a multiple of 90 |
| Day12.Ship.Travel | src/day12.rs:17-26 | the ship's new state is the instruction applied to the old one; failure exactly when that panics |
| Day12.Part1 | src/day12.rs:98-106 | the Manhattan distance from the start after a new ship follows every instruction; `None` when one of them panics |
| Day12.MoveBack | src/day12.rs:28-36 | north then south, or east then west, by the same distance returns to the start |
| Day12.TurnBack | src/day12.rs:38-46 | a right turn undone by a left turn of the same angle returns the facing |
| Day12.ForwardMoves | src/day12.rs:48-57 | forward moves along the facing at the four headings and panics at any other facing |
| Day12.QuarterTurnSquare | src/day12.rs:38-46 | a quarter turn from one of the four headings lands on one of them |
| Day12.QuarterTurnsRun | src/day12.rs:98-106 | a course whose turns are all whole quarters never panics and ends on one of the four headings |
| Day12.RunConcat | src/day12.rs:101-103 | following two courses one after the other is following their concatenation |
| Day12.ParseIntToString | src/day12.rs:81-83 | the decimal text of a number parses back to it |
| Day12.ParseInstructionText | src/day12.rs:80-94 | an instruction written as its letter and number parses back to itself |
| Day12.ParseEachLines | src/day12.rs:74-96 | lines written from a list of instructions parse back to that list |
| Day12.ParseAllLines | src/day12.rs:74-96 | the same with each line trimmed first |
| Day12.ParseEach | src/day12.rs:80-95 | one instruction per line, each the parse of its line; a failure only where some line does not parse |
| Day12.InputGenerator | src/day12.rs:74-96 | one instruction per line of the input, each the parse of its trimmed line; `None` (the panic) only when some trimmed line does not parse |
| Day12.GeneratorRoundTrip | src/day12.rs:74-96 | a course written one instruction per line reads back unchanged |
| Day12.ExampleRotations | src/day12.rs:112-123 | from a new ship, R90 gives facing 180 and L180 gives facing 270 |
| Day12.WideTurns | src/day12.rs:38-46 | R450 and L-90 from east face south; R-90 from east overflows the u16 sum (a panic); R-90 from north faces 286 after the cast |
| Day12.ExamplePart1 | src/day12.rs:125-135 | F10 N3 F7 R90 F11 ends at (17, -8), distance 25 |
| Day12.ExampleLines | src/day12.rs:80-94 | "F10" parses to forward 10 and "X5" is rejected |
| Day13.ParseEntries | src/day13.rs:19-24 | one entry per comma-separated part, "x" as unknown and a number as a bus, in list order; a failure only where some part is neither |
| Day13.InputGenerator | src/day13.rs:12-29 | a result needs two lines: the first trimmed line read as a number is the time, and each comma-separated part of the second is read as an entry; `None` (a panic) only when a line is missing, the time does not parse or a part is neither "x" nor a number |
| Day13.ParseEntryText | src/day13.rs:20-23 | an entry written as "x" or as its id parses back to itself |
| Day13.ParseEntryTexts | src/day13.rs:16-24 | a bus list written out parses back to itself, positions kept |
| Day13.EntriesLine | src/day13.rs:19 | splitting the written list at commas gives back its parts |
| Day13.GeneratorRoundTrip | src/day13.rs:12-29 | notes written as a timestamp line and a bus line read back unchanged |
| Day13.Ids | src/day13.rs:33-36 | the bus ids keep at most one entry per list position |
| Day13.CandidateIsNext | src/day13.rs:40 | b * (t / b) + b is the first multiple of b strictly after t, and t + b when b divides t |
| Day13.FirstMin | src/day13.rs:38-42 | `min_by_key` picks a bus whose candidate no other beats, and the first of those |
| Day13.Part1Answer | src/day13.rs:31-45 | the answer is the wait (between 1 and the id) for the earliest bus, the first such in the list, times its id |
| Day13.Part1 | src/day13.rs:31-45 | an answer exists exactly when some bus id is listed and none is 0 (otherwise `min_by_key(..).unwrap()` or the division panics), and it is a multiple of a listed id between the id and its square: a wait of 1 to id minutes times the id |
| Day13.Offsets | src/day13.rs:49-57 | each bus paired with a position at or after the start of the list |
| Day13.OffsetsArePositions | src/day13.rs:49-57 | each pair's offset is the bus's position in the full list, x entries counted |
| Day13.CheckAligned | src/day13.rs:63 | the `all` check passes exactly when every later bus leaves its offset after the time |
| Day13.Part2 | src/day13.rs:48-69 | the least positive multiple of the first id at which every later bus is aligned; `None` with no bus, a first id of 0, or an id of 0 in the check |
| Day13.CheckAll | src/day13.rs:63 | the loop over the later busses computes the check |
| Day13.NextMultiple | src/day13.rs:62-65 | stepping past a failing multiple keeps every smaller multiple failing |
| Day13.ExamplePart1 | src/day13.rs:75-82 | the example's answer is 295 |
| Day13.ExampleFirstMin | src/day13.rs:38-42 | at time 939 the bus with id 59 leaves first |
| Day13.ExampleOffsets | src/day13.rs:84-91 | the example's later busses sit at offsets 1, 4, 6 and 7 |
| Day13.ExampleAligned1 | src/day13.rs:84-91 | 1068781 aligns every bus of the first example |
| Day13.ExampleAligned2 | src/day13.rs:93-100 | 3417 aligns 17,x,13,19 |
| Day13.ExampleAligned3 | src/day13.rs:102-109 | 754018 aligns 67,7,59,61 |
| Day13.ExampleAligned4 | src/day13.rs:110-117 | 779210 aligns 67,x,7,59,61 |
| Day13.ExampleAligned5 | src/day13.rs:118-125 | 1261476 aligns 67,7,x,59,61 |
| Day13.ExampleAligned6 | src/day13.rs:126-133 | 1202161486 aligns 1789,37,47,1889 |
| Day14.OrBits | src/day14.rs:61 | bit i of a OR b is set exactly when it is set in a or in b |
| Day14.AndBits | src/day14.rs:61 | bit i of `a & b` is set exactly when it is set in both |
| Day14.BitsDetermine | src/day14.rs:61 | two numbers with the same bits are equal |
| Day14.BinValue | src/day14.rs:20-21 | a binary string of length k reads as a number below 2^k |
| Day14.BinValueBits | src/day14.rs:20-21 | bit i of a binary string's value is its i-th digit from the right |
| Day14.Replace | src/day14.rs:17-18 | `replace` keeps the length and swaps exactly the given character |
| Day14.KeepIsOnes | src/day14.rs:16 | `keep` is 36 one bits, 2^36 - 1 |
| Day14.ToMaskAccepts | src/day14.rs:15-27 | `to_mask` succeeds (does not panic in `unwrap`) exactly on non-empty text of '0', '1' and 'X' after an optional '+' |
| Day14.ToMaskParts | src/day14.rs:15-27 | `set` is the mask read in binary with X as 0, and `unset` is the mask with X as 1, cut to 36 bits |
| Day14.ToMask | src/day14.rs:14-27 | the `unset` number is cut to 36 bits: it is below 2^36 |
| Day14.KeptBelow | src/day14.rs:16-25 | and-ing with the 36 one bits of `keep` leaves a number below 2^36 |
| Day14.MaskedBits | src/day14.rs:61 | a part-1 write stores a value whose bit i (below 36) is 1 where the mask has '1', 0 where it has '0', and the value's bit where it has 'X' |
| Day14.MaskBit | src/day14.rs:61 | (value OR set) AND unset, bit by bit, with `unset` cut to 36 bits |
| Day14.SearchLeftmost | src/day14.rs:31 | the regex search returns the match at the leftmost position that matches |
| Day14.SearchFails | src/day14.rs:31 | the search fails (the `unwrap` panic) exactly when no position matches |
| Day14.ParseMaskText | src/day14.rs:44-48 | "mask = m" parses back to setting mask m |
| Day14.ParseMemText | src/day14.rs:39-43 | "mem[a] = v" parses back to writing v at a |
| Day14.ParseOperationText | src/day14.rs:29-51 | every operation written as in the puzzle parses back to itself |
| Day14.ParseAllLines | src/day14.rs:29-51 | lines written from a list of operations parse back to that list |
| Day14.ParseAll | src/day14.rs:33-50 | one operation per line, each the parse of its trimmed line; a failure only where some line does not parse |
| Day14.InputGenerator | src/day14.rs:29-51 | one operation per line of the input, each the parse of its trimmed line; `None` (a panic) only when some trimmed line does not parse |
| Day14.GeneratorRoundTrip | src/day14.rs:29-51 | a program written one operation per line reads back unchanged |
| Day14.TotalRemove | src/day14.rs:66 | the sum of a map's values is one value plus the sum of the rest |
| Day14.TotalUpdate | src/day14.rs:61 | overwriting an entry changes the sum by the new value minus the old one |
| Day14.SumValues | src/day14.rs:66 | the loop over the map's values computes their sum |
| Day14.Run1Concat | src/day14.rs:57-64 | running two programs one after the other is running their concatenation |
| Day14.Run1Writes | src/day14.rs:55-61 | a write before any mask stores 0, because the initial mask is set = 0 and unset = 0; a second write to the same address replaces the first |
| Day14.Part1 | src/day14.rs:53-67 | the sum of the stored values after running the program with masked writes; `None` where a mask does not parse |
| Day14.ToBinaryValue | src/day14.rs:90 | the printed binary digits of n read back as n |
| Day14.Format36Value | src/day14.rs:90 | `{:036b}` prints n in binary with zeros in front, 36 digits long when n < 2^36 |
| Day14.XIndices | src/day14.rs:91 | the positions of 'X' in the mask, every one of them, in increasing order |
| Day14.ReplaceX | src/day14.rs:69-86 | `replace_x` returns 2 to the power of the number of indices strings, each as long as the input |
| Day14.ReplaceXMembers | src/day14.rs:69-86 | a string is returned exactly when it has a binary digit at each index and equals the input elsewhere |
| Day14.ReplaceXOrder | src/day14.rs:69-86 | the first half of the result has '1' at the first index and the second half '0' |
| Day14.MaskedAddressOf | src/day14.rs:89-90 | the address ORed with the mask's X-as-0 value, printed in 36 binary digits |
| Day14.MaskedAddressBits | src/day14.rs:89-90 | digit 35 - i of the printed address is '1' exactly when bit i of the address or of the mask is 1 |
| Day14.FloatingReaches | src/day14.rs:88-100 | a 36-digit mask and an address below 2^36 write exactly the addresses with mask '1' bits forced to 1, '0' bits unchanged and 'X' bits free |
| Day14.Floating | src/day14.rs:87-100 | the list of addresses written has 2^x entries, x the number of 'X' in the mask: one per way to fill the floating bits |
| Day14.WriteAllStep | src/day14.rs:97-99 | one loop iteration inserts one more address with the value |
| Day14.WriteEach | src/day14.rs:97-99 | the loop writes the value at every address of the list and keeps the other entries |
| Day14.SetAtAddress | src/day14.rs:88-100 | the new map is the old one with the value at every floating address; `None` where a parse panics |
| Day14.Run2NeedsMask | src/day14.rs:89-104 | a write before any mask panics, since the empty mask does not parse |
| Day14.Part2 | src/day14.rs:102-117 | the sum of the stored values after running the program with floating writes; `None` where a parse panics |
| Day14.TotalWriteAll | src/day14.rs:97-99 | writing v at distinct addresses gives the sum of the untouched entries plus v per address |
| Day14.ExampleToMask | src/day14.rs:123-129 | the test mask gives set = 64 and unset = 2^36 - 3 |
| Day14.ExampleRun1 | src/day14.rs:131-141 | the part-1 example leaves 101 at 7 and 64 at 8 |
| Day14.ExamplePart1 | src/day14.rs:131-141 | part 1 on the example is 165 |
| Day14.ExampleReplaceA | src/day14.rs:69-86 | the X positions 0 and 5 of "111010" give 111011, 111010, 011011 and 011010 in that order |
| Day14.ExampleFloatingA | src/day14.rs:143-152 | the first part-2 write reaches 59, 58, 27 and 26 |
| Day14.ExampleFloatingB | src/day14.rs:143-152 | the second part-2 write reaches 27, 26, 25, 24, 19, 18, 17 and 16 |
| Day14.ExamplePart2 | src/day14.rs:143-152 | part 2 on the example is 208 |
| Day15.ParseNumberTexts | src/day15.rs:3-9 | numbers written with commas between them parse back to themselves |
| Day15.ParseNumbers | src/day15.rs:4-8 | one number per part, each the parse of its part; a failure only where some part does not parse |
| Day15.InputGenerator | src/day15.rs:2-9 | one number per comma-separated part of the input, untrimmed; `None` (the panic) only when some part does not parse |
| Day15.GeneratorRoundTrip | src/day15.rs:2-9 | a non-empty starting list written comma-separated reads back unchanged |
| Day15.Opening | src/day15.rs:15-23 | after k starting numbers every recorded turn is between 1 and k, and the number held is below k |
| Day15.OpeningKeys | src/day15.rs:15-23 | the numbers recorded are exactly the starting numbers seen so far |
| Day15.Step | src/day15.rs:25-34 | one turn keeps every recorded turn before the next one, and the next number is below the turn |
| Day15.Turns | src/day15.rs:25-34 | once a turn of the second loop has run, the number held is below the last turn index n - 1 |
| Day15.Play | src/day15.rs:11-37 | when the second loop runs (n above the number of starting numbers plus one), the result is below n - 1: it is an age, shorter than the game so far |
| Day15.LastBefore | src/day15.rs:26-29 | the last turn a number was spoken before turn t lies before t (0 when never) |
| Day15.OpeningRecords | src/day15.rs:15-23 | the table holds a number exactly when it was spoken, with the 1-based turn it was last spoken on |
| Day15.StepAgrees | src/day15.rs:25-34 | a turn of the loop speaks the game's next number and keeps the table in step with the game |
| Day15.TurnsAgree | src/day15.rs:25-36 | the loop's final number is the game's number on turn n |
| Day15.OpeningAgrees | src/day15.rs:15-23 | with a last starting number not spoken earlier, the opening as written matches the game |
| Day15.PlayIsGame | src/day15.rs:11-37 | in that case `find_nth_number` gives the game's number on turn n |
| Day15.OpeningFixed | src/day15.rs:15-23 | the corrected opening keeps the same table |
| Day15.OpeningFixedAgrees | src/day15.rs:15-23 | the corrected opening matches the game for every starting list |
| Day15.PlayFixedIsGame | src/day15.rs:11-37 | with the corrected opening the result is the game's number on turn n for every starting list |
| Day15.RepeatedLastStart | src/day15.rs:16-21 | on [0, 0] turn 3 is 1, the source as written gives 0, and the corrected version gives 1 |
| Day15.FindNthNumber | src/day15.rs:11-37 | the map version returns the game as written for n turns |
| Day15.OpeningCell | src/day15.rs:44-52 | in the vector, 0 stands for "never spoken" and a non-zero cell is the recorded turn, so the vector's opening step is the map's |
| Day15.StepCell | src/day15.rs:54-64 | the vector's turn step is the map's |
| Day15.OpenedStep | src/day15.rs:44-52 | one opening iteration on the vector keeps it in step with the map version |
| Day15.PlayingStep | src/day15.rs:54-64 | one turn on the vector keeps it in step with the map version |
| Day15.FindNthArray | src/day15.rs:39-67 | the vector version returns the same as the map version when every starting number is below n, and `None` (the index panic) otherwise |
| Day15.ExampleOpening | src/day15.rs:15-23 | after 0, 3, 6 the table holds 0 at 1, 3 at 2, and 6, with 0 held |
| Day15.ExampleTenth | src/day15.rs:82-86 | [0, 3, 6] gives 0 on turn 10 |
| Day17.ParseRow | src/day17.rs:8-14 | one cell per character, '#' active and '.' inactive |
| Day17.ParseRowRejects | src/day17.rs:9-13 | a line is rejected (the source's panic) exactly when it holds a character other than '.' and '#' |
| Day17.ParseRows | src/day17.rs:3-17 | one row per line, each the parse of the trimmed line; a failure only where some trimmed line is rejected |
| Day17.InputGenerator | src/day17.rs:2-17 | one row per line of the input, each the parse of its trimmed line; `None` (the panic) only when some trimmed line holds a character other than '.' and '#' |
| Day17.ParseRowText | src/day17.rs:8-14 | a row written with '.' and '#' parses back to itself |
| Day17.ParseRowsOfLines | src/day17.rs:3-17 | a grid written line by line parses back to itself |
| Day17.GeneratorRoundTrip | src/day17.rs:3-17 | a grid written as newline-separated text reads back unchanged |
| Day17.ExampleInput | src/day17.rs:179-182 | the test's indented text parses to the three rows .#., ..# and ### |
| Day17.Prepend | src/day17.rs:67-76 | one step of the cartesian product has as many entries as the product of the two lengths |
| Day17.PrependMembers | src/day17.rs:67-76 | its entries are exactly a value followed by a tail |
| Day17.Product | src/day17.rs:67-76 | the d-fold product of a range has the length of the range raised to d entries |
| Day17.ProductMembers | src/day17.rs:67-76 | its entries are exactly the coordinates of length d with every part in the range |
| Day17.ProductDistinct | src/day17.rs:67-76 | no coordinate appears twice |
| Day17.CellsMembers | src/day17.rs:73-76 | the cells visited are exactly the coordinates of length d in [0, max) |
| Day17.OffsetsDistinct | src/day17.rs:67-71 | the neighbour offsets are distinct |
| Day17.Add | src/day17.rs:43-48 | a neighbour's parts are the coordinate's parts plus the offset's |
| Day17.CalculateNeighbors | src/day17.rs:24-53 | the loop pushes exactly the neighbours the offsets give, skipping the all-zero offset and those leaving [0, edge) |
| Day17.NeighborsMembers | src/day17.rs:29-50 | a coordinate is returned exactly when some kept offset leads to it |
| Day17.NeighborsAreOthers | src/day17.rs:30-41 | every returned coordinate differs from the cell itself and lies in [0, edge) in each dimension |
| Day17.NeighborsLength | src/day17.rs:29-50 | there are no more neighbours than offsets, and fewer when the zero offset is among them |
| Day17.NeighborsAround | src/day17.rs:24-53 | with the 3^d offsets, the neighbours are exactly the other cells in the box within 1 in every dimension |
| Day17.NeighborsBound | src/day17.rs:24-53 | there are at most 3^d - 1 of them |
| Day17.NeighborsDistinct | src/day17.rs:29-50 | no neighbour is returned twice |
| Day17.ActiveCount | src/day17.rs:89-93 | the count is the number of active cells around the cell |
| Day17.CountDistinct | src/day17.rs:89-93 | counting a list without repeats counts the set of chosen elements |
| Day17.NextCubeSnoc | src/day17.rs:81-100 | each loop iteration decides one more cell from the old cube alone |
| Day17.Cycle | src/day17.rs:78-103 | one cycle writes a fresh cube computed from the old cube only |
| Day17.CycleCell | src/day17.rs:94-99 | after a cycle a cell in the box is active exactly when it was active with 2 or 3 active neighbours or inactive with exactly 3 |
| Day17.Placed | src/day17.rs:60-64 | input cell (x, y) is placed at (x + max/2, y + max/2, max/2, ...) |
| Day17.PlacedStep | src/day17.rs:60-64 | one placement step adds the cell when it is active |
| Day17.Simulate | src/day17.rs:56-110 | the number of active cells after six cycles; `None` where a row is too long for the cube (the index panic) |
| Day17.Part1 | src/day17.rs:55-110 | the simulation in three dimensions |
| Day17.Part2 | src/day17.rs:112-171 | the simulation in four dimensions |
| Day17.PlacedInjective | src/day17.rs:60-64 | two input cells are never placed on the same coordinate |
| Day17.InitialPlacement | src/day17.rs:60-64 | an input cell's coordinate is active exactly when the input cell is, and lies in the box when rows fit |
| Day17.InitialFromInput | src/day17.rs:60-64 | every active cell of the initial cube comes from an active input cell |
| Day17.IterateInBox | src/day17.rs:78-103 | after a cycle every active cell is inside the box |
| Day17.CountCells | src/day17.rs:105-109 | counting the active cells of the box counts the whole cube |
| Day17.ConwayCounts | src/day17.rs:56-110 | when rows fit, the answer is the number of active cells after six cycles |
| Day18.InputGenerator | src/day18.rs:4-7 | one expression per line: no expression holds a line break |
| Day18.NetAppend | src/day18.rs:14-20 | the depth change over a concatenation is the sum of the depth changes of its parts |
| Day18.MatchFrom | src/day18.rs:15-24 | the scan from position i leftwards, if it stops, stops at or before i |
| Day18.MatchingOpen | src/day18.rs:9-26 | a matching '(' is found only for text ending with ')', and lies before that ')' |
| Day18.MatchFromCloses | src/day18.rs:14-24 | the scan stops at p exactly when p is the first position, going left, where the depth reaches zero |
| Day18.MatchFromNone | src/day18.rs:14-25 | the scan finds nothing (the source's second panic) exactly when the depth stays positive to the start of the text |
| Day18.MatchingOpenSpec | src/day18.rs:9-26 | the result is p exactly when the text ends with ')', e[p..] closes the final ')' with net depth zero and no shorter suffix does |
| Day18.MatchingOpenNone | src/day18.rs:21-25 | for text ending with ')', no index is found exactly when every suffix left of the final ')' has more ')' than '(' |
| Day18.FindMatchingParenthesisIndexRev | src/day18.rs:9-26 | the loop over the reversed characters returns the index the specification function gives, or the panic as None |
| Day18.DigitsStart | src/day18.rs:31 | the `(?P<value>\d+)$` group: the longest run of digits ending the text |
| Day18.SpaceStart | src/day18.rs:31 | the `\s*` before the digits: the longest run of whitespace ending at j |
| Day18.LineStart | src/day18.rs:31 | `.*` stops at a line break: the start of the line containing position k |
| Day18.LineEnd | src/day18.rs:31 | the greedy `.*` of rest stops at a line break: the first line break between i and hi, or hi when there is none |
| Day18.RevCaptures | src/day18.rs:31-53 | a match always has a nonempty digit value, and it is the end of the text; when the operator group matched, its rest is shorter than the text |
| Day18.RevCapturesShape | src/day18.rs:31-58 | when the operator group matched, the text holds, from the start of a line, the rest (no line break), whitespace that may run over line breaks, the operator '+' or '*', whitespace and the digits that end the text |
| Day18.RevCapturesValue | src/day18.rs:31-56 | when the operator group did not match, the digits are a suffix of the text not preceded by a digit |
| Day18.OpMatchTail | src/day18.rs:31 | every match of the operator form ends with the final run of digits, with the operator just before the whitespace in front of them |
| Day18.PlainBefore | src/day18.rs:31 | no match of the digits alone starts before the final run of digits, since `$` needs every later character to be a digit |
| Day18.LineBeforeRest | src/day18.rs:31 | a rest without line breaks followed by whitespace up to the operator cannot start before the line holding the last non-whitespace character in front of the operator |
| Day18.RestBeforeBreak | src/day18.rs:31 | from that line's start, a rest without line breaks ends no later than the first line break before the operator |
| Day18.OpMatchLeftmost | src/day18.rs:31 | with the operator just before the whitespace in front of the final digits, the match from that line's start is a match, no match of either form starts earlier, and no rest from that start is longer |
| Day18.RevCapturesLeftmost | src/day18.rs:49 | where an operator is captured, the captures are those of the leftmost match: no match of either form starts earlier, and at that start the greedy rest is the longest possible |
| Day18.RevCapturesPlainLeftmost | src/day18.rs:49-56 | where no operator is captured, no match of the operator form exists and the value is the leftmost match of the digits alone |
| Day18.RevCapturesNoMatch | src/day18.rs:49 | where nothing is captured, the pattern matches nowhere, so `captures(..).unwrap()` panics |
| Day18.RevCapturesLineBreak | src/day18.rs:31 | on "1\n+ 2" the rest is "1", the operator '+' and the value "2": the whitespace before the operator runs over the line break |
| Day18.Solve1Numeral | src/day18.rs:34-36 | a numeral alone solves to its number |
| Day18.Solve1LineBreak | src/day18.rs:28-65 | "1\n+ 2" solves to 3 |
| Day18.DigitlessTrim | src/day18.rs:34 | text holding no digit does not trim to a number |
| Day18.Solve1 | src/day18.rs:28-65 | text holding no digit has no value: the source panics, in `captures(..).unwrap()` or in the search for the matching parenthesis |
| Day18.GroupLast | src/day18.rs:38-47 | text ending with a group and holding no digit has no value |
| Day18.NumberLast | src/day18.rs:48-64 | text holding no digit has no captures, so no value |
| Day18.ApplyAfter | src/day18.rs:42-46 | when the group has no value, neither has the whole |
| Day18.SumAll | src/day18.rs:101-113 | the sum over all lines exists exactly when every line has a value |
| Day18.Part1 | src/day18.rs:100-106 | part 1 has a value exactly when every expression solves with equal precedence |
| Day18.BalancedConcat | src/day18.rs:14-24 | two balanced texts joined are balanced |
| Day18.BalancedWrap | src/day18.rs:14-24 | a balanced text in parentheses is balanced |
| Day18.GroupMatch | src/day18.rs:9-26 | for a balanced group at the end of a text, the matching '(' is the one that opens the group |
| Day18.ShowOperandText | src/day18.rs:28-65 | the text of any operand is a well-formed expression text (balanced, nonempty, made of digits, spaces, operators and parentheses) |
| Day18.ShowText | src/day18.rs:28-65 | the text of any chain is a well-formed expression text |
| Day18.Solve1Group1 | src/day18.rs:34-47 | text that is not a numeral and ends with ')' is solved through the group branch |
| Day18.GroupLast1 | src/day18.rs:38-47 | the group branch applies the trimmed text before the matching '(' to the value of the group |
| Day18.NumberLast1 | src/day18.rs:48-64 | the number branch combines the value of the trimmed rest with the final number by the captured operator |
| Day18.ApplyAfterOp | src/day18.rs:42-44 | text before a group ending in '+' or '*' adds or multiplies the value of what precedes the operator |
| Day18.Solve1GroupAlone | src/day18.rs:42-46 | a group with nothing before it has the value of its inside |
| Day18.Solve1GroupAfter | src/day18.rs:38-44 | x o (y) is x's value combined by o with y's value |
| Day18.Solve1NumAfter | src/day18.rs:48-61 | x o n is x's value combined by o with n |
| Day18.RevCapturesTail | src/day18.rs:31-58 | on `x o digits` the pattern captures rest `x `, the operator o and the digits |
| Day18.Solve1NumTail | src/day18.rs:48-61 | solving `x o n` combines the value of x with n by o |
| Day18.Solve1GroupTail | src/day18.rs:38-44 | solving `x o (y)` combines the value of x with the value of y by o |
| Day18.Solve1Group | src/day18.rs:38-46 | a parenthesised expression has the value of its inside |
| Day18.Solve1Show | src/day18.rs:28-65 | every expression written in the puzzle's layout solves to its value with both operators at one precedence, applied from the left |
| Day18.Solve1ShowOperand | src/day18.rs:28-65 | every operand written in the puzzle's layout solves to its value |
| Day18.RunEnd | src/day18.rs:69 | the end of the run of `[\d*+\s]` characters starting at j |
| Day18.AtomicAt | src/day18.rs:69-74 | a group without parentheses inside starting at s is found exactly when one exists, and it is the only one starting there |
| Day18.FindAtomicFrom | src/day18.rs:67-75 | the leftmost group without parentheses inside at or after s, or None when there is none |
| Day18.FindAtomic | src/day18.rs:67-75 | the leftmost match of the atomic pattern: it is a match, no match starts earlier, and None means no match at all |
| Day18.AtomicOpens | src/day18.rs:79-83 | an atomic group holds no '(' and removing it removes at least one '(' |
| Day18.ReplaceOpens | src/day18.rs:79-83 | replacing an atomic group by a number lowers the count of '(' (the loop terminates) |
| Day18.Solve2Fails | src/day18.rs:79-83 | when the leftmost atomic group fails, the whole expression fails |
| Day18.Solve2Replaces | src/day18.rs:79-83 | when the leftmost atomic group has value v, the expression has the value of the text with the group replaced by v |
| Day18.SolveExpression2 | src/day18.rs:77-98 | the loop that replaces groups and then multiplies the sums computes the recursive specification's value |
| Day18.Part2 | src/day18.rs:108-113 | part 2 has a value exactly when every expression solves with '+' before '*' |
| Day18.TermValueOf | src/day18.rs:88-95 | a number with spaces around parses to that number |
| Day18.SumTermsOf | src/day18.rs:91-95 | terms joined by '+' sum to the sum of their numbers |
| Day18.FactorNotNumeral | src/day18.rs:88-90 | a factor of more than one term is not itself a numeral |
| Day18.FactorValueOf | src/day18.rs:87-96 | a factor's value is the sum of its terms |
| Day18.EvalFlatOf | src/day18.rs:85-97 | text without parentheses evaluates to the product of the sums of its '*'-separated factors |
| Day18.EvalFlat | src/day18.rs:85-97 | text holding no digit has no product: its first factor has no value |
| Day18.DigitlessFactor | src/day18.rs:87-95 | a factor holding no digit has no value, so a `parse().unwrap()` panics |
| Day18.Solve2 | src/day18.rs:77-98 | text holding no digit has no value, as the source panics in `parse().unwrap()` |
| Day18.ReplaceGroup | src/day18.rs:79-83 | text with an atomic group and no digit has no value |
| Day18.FlatSolve2 | src/day18.rs:77-98 | an expression without parentheses solves to the product of its sums: '+' binds tighter than '*' |
| Day18.FlatAtomic | src/day18.rs:69 | text without parentheses consists only of atomic-class characters |
| Day18.SplitLeftmost | src/day18.rs:67-75 | no atomic group starts in a prefix where no '(' is followed by a ')' |
| Day18.SplitAtomic | src/day18.rs:69 | `a(f)b` with f of atomic characters has an atomic group exactly around f |
| Day18.SplitStep | src/day18.rs:79-84 | `a(f)b` with the first group flat solves as a, the value of f, b |
| Day18.LeftmostAtomic | src/day18.rs:67-75 | an atomic group with none to its left is what the search finds |
| Day18.ReplaceFlat | src/day18.rs:79-84 | replacing the leftmost flat group by its product preserves the value |
| Day18.MatchingOpenExample1 | src/day18.rs:121 | "3 + (2 * 3)" gives 4 |
| Day18.MatchingOpenExample2 | src/day18.rs:122 | "(3 + 5) * (2 * 4 + 10)" gives 10 |
| Day18.MatchingOpenExample3 | src/day18.rs:123 | "2 + ((3 * 5) + 2)" gives 4 |
| Day18.MatchingOpenExample4 | src/day18.rs:124 | "(2 + 3)" gives 0 |
| Day18.Solve1Example5 | src/day18.rs:129 | "5" solves to 5 |
| Day18.Solve1Example6 | src/day18.rs:130 | "2 * 3" solves to 6 |
| Day18.Solve1Example20 | src/day18.rs:131 | "4 * 5" solves to 20 |
| Day18.Solve1Example10 | src/day18.rs:132 | "4 + (2 * 3)" solves to 10 |
| Day18.Solve1ExampleSum6 | src/day18.rs:133 | "2 + 2 + 2" solves to 6 |
| Day18.Solve1Example26 | src/day18.rs:134 | "2 * 3 + (4 * 5)" solves to 26 |
| Day18.Solve1Example437 | src/day18.rs:135 | "5 + (8 * 3 + 9 + 3 * 4 * 3)" solves to 437 |
| Day18.Solve1Example12240 | src/day18.rs:136 | "5 * 9 * (7 * 3 * 3 + 9 * 3 + (8 + 6 * 4))" solves to 12240 |
| Day18.Solve1Example13632 | src/day18.rs:137 | "((2 + 4 * 9) * (6 + 9 * 8 + 6) + 6) + 2 + 4 * 2" solves to 13632 |
| Day18.Solve2Example6 | src/day18.rs:142 | "2 + (2 * 2)" solves to 6 with '+' first |
| Day18.Solve2Example8 | src/day18.rs:143 | "2 + (2 * 3)" solves to 8 |
| Day18.Solve2Example26 | src/day18.rs:144 | "2 + ((2 * 4) * 3)" solves to 26 |
| Day18.Solve2Example1890 | src/day18.rs:145 | "5 * 7 * 6 * 7 + 2" solves to 1890 |
| Day18.Solve2Example3628896 | src/day18.rs:147 | "(5 * (5 * 7 * 6 * 7 + 2) * 5 + 7) + 3 * 2 * 8 + 8" solves to 3628896 |
| Common.SplitBlankFrom | src/day19.rs:9 | splitting on "\n\n" always yields at least one piece |
| Common.SplitBlank | src/day19.rs:9 | splitting on "\n\n" always yields at least one piece |
| Common.SplitBlankFromNone | src/day19.rs:9 | text without a blank line is one piece |
| Common.SplitBlankFromPrefix | src/day19.rs:9 | when the text before a "\n\n" holds no blank line and does not end in a newline, it is the first piece and the rest is split in turn |
| Common.SplitBlankOf | src/day19.rs:9 | text without blank lines is one piece, and stays the first piece when a blank line and more text follow |
| Common.TrimAll | src/day19.rs:11-12 | every line trimmed, one for one |
| Day19.InputGenerator | src/day19.rs:8-14 | the generator succeeds exactly when the input has a second section (the source indexes parts[1]) |
| Day19.InputGeneratorSections | src/day19.rs:8-14 | a rules section with no blank line and no trailing newline, a blank line, then messages with no blank line: both sections come back as their trimmed lines |
| Day19.ParseU64 | src/day19.rs:53-63 | a parsed rule number is a decimal numeral below 2^64 |
| Day19.ParseRawLineOf | src/day19.rs:55-61 | "N:body" parses to N and the trimmed body |
| Day19.Collect | src/day19.rs:53-63 | collecting succeeds exactly when every line parses; every parsed number is a key and every key comes from a line |
| Day19.ParseRawRules | src/day19.rs:53-63 | the rule map exists exactly when every line parses, and holds every line's number |
| Day19.ParseRawRulesLast | src/day19.rs:53-63 | for a repeated number the last line wins, as when collecting into a HashMap |
| Day19.Alternatives | src/day19.rs:21-24 | the body splits at each bar into at least one alternative |
| Day19.CompileKnown | src/day19.rs:17-19 | a rule already known is returned as known, without looking at the raw rules |
| Day19.CompileMissing | src/day19.rs:21-23 | a rule neither known nor raw fails (the source's expect panic) |
| Day19.Compile | src/day19.rs:16-23 | a rule known from the start is returned as known, and only a known rule or one among the raw rules has a compiled text (the `expect` panics otherwise) |
| Day19.CompilePartsShape | src/day19.rs:35-39 | a literal part yields exactly one character |
| Day19.CompileAlternativesShape | src/day19.rs:26-50 | a compiled rule is either one character or wrapped in "(?:" and ")" |
| Day19.CompileShape | src/day19.rs:16-51 | every rule compiled from its body is either one character or a "(?:…)" group |
| Day19.KnownRules.constructor | src/day19.rs:69 | the memo starts with the given rules |
| Day19.Record | src/day19.rs:48 | recording a compiled rule keeps the memo in agreement with the compilation and only adds a rule ranked no higher than it |
| Day19.GetRule | src/day19.rs:16-51 | the memoised recursion returns what the compilation gives; the memo keeps agreeing with it, only gains entries and never changes one, and holds the rule afterwards |
| Day19.ConcatParts | src/day19.rs:28-44 | the loop over one alternative's parts gives the compilation's outcome for it, adding only lower-ranked rules to the memo |
| Day19.CompilePartsStep | src/day19.rs:33-35 | a numbered part adds its rule's compiled text to the pieces to concatenate |
| Day19.CompilePartsNumbered | src/day19.rs:32-43 | an alternative of rule numbers compiles to the concatenation of their texts |
| Day19.CompileAlternativesSequences | src/day19.rs:28-46 | alternatives that all concatenate compile to "(?:" + their texts joined by bars + ")" |
| Day19.Concats | src/day19.rs:43 | each alternative's text is the concatenation of its parts |
| Day19.CompileNumbered | src/day19.rs:16-51 | a rule made only of rule numbers compiles to "(?:" + the alternatives, each the concatenation of its rules' texts, joined by bars + ")" |
| Day19.CompileLiteral | src/day19.rs:35-39 | a rule "\"c\"" compiles to the single character c |
| Day19.AlternativesOfTwo | src/day19.rs:24 | text with one bar splits into the two sides |
| Day19.TwoAlternatives | src/day19.rs:24-29 | a body of words w, a bar, then words v, splits into the words of w and the words of v |
| Day19.RankedOfBodies | src/day19.rs:16-51 | a grammar in which every rule names only lower-ranked rules has no cycle |
| Day19.CompileTwoSingles | src/day19.rs:16-51 | a body of two single-number alternatives x and y compiles to "(?:", x's text, a bar, y's text and ")" |
| Day19.CompileTwoPairs | src/day19.rs:16-51 | a body of two two-number alternatives compiles to "(?:", the first pair's texts, a bar, the second pair's texts and ")" |
| Day19.ExampleFromKnown | src/day19.rs:122-131 | rule 1 with alternatives 2 and 3, known as a and b, gives the group of a or b, with the "(?:" prefix of the format at src/day19.rs:46 |
| Day19.ExampleFromRaw | src/day19.rs:133-144 | rule 1 with alternatives 2 and 3, the literals a and b, gives the group of a or b |
| Day19.ExampleMore | src/day19.rs:146-157 | rule 1 with alternatives 2 2 and 3 2 gives the group of aa or ba |
| Day19.NestedRuleFour | src/day19.rs:159-171 | rule 4 of the nested test, alternatives 2 and 3, gives the group of a or b |
| Day19.ExampleNested | src/day19.rs:159-171 | rule 1 of the nested test, alternatives 2 4 and 3 2, gives the group of a followed by rule 4's group, or ba |
| Day20.Convert | src/day20.rs:7-13 | a cell converts exactly when it is '.' or '#' (anything else panics) |
| Day20.Edge | src/day20.rs:19-24 | each side is the ten cells the loop visits: row 0, column 9, row 9 and column 0, in index order |
| Day20.Column | src/day20.rs:21-23 | a column holds the x-th cell of every row |
| Day20.EdgeValue | src/day20.rs:25-28 | an edge's value is below 2 to the power of its length (below 1024 for ten cells) |
| Day20.EdgeValueSome | src/day20.rs:7-13 | an edge has a value exactly when every cell on it is a pixel |
| Day20.EdgeValueBits | src/day20.rs:25-28 | bit k of an edge's value is set exactly when cell k is '#' |
| Day20.EdgeValueSnoc | src/day20.rs:25-28 | one more cell adds its bit times 2 to the power of its index |
| Day20.SidesOfSome | src/day20.rs:6-32 | the four sides exist exactly when every border cell the loop reads is a pixel |
| Day20.SideSumStep | src/day20.rs:19-29 | after i turns of the loop each running total is the value of the first i cells of its side |
| Day20.SideSumNext | src/day20.rs:25-28 | one turn adds the cell's bit times 2 to the power of i |
| Day20.SideSumEdge | src/day20.rs:19-29 | the running total after i turns is the value of the side's first i cells |
| Day20.SideSumsAll | src/day20.rs:19-31 | the four totals after ten turns are the four sides |
| Day20.SummedFails | src/day20.rs:11-23 | a border cell that is not a pixel makes the whole computation fail |
| Day20.CalculateSides | src/day20.rs:6-32 | the loop returns the four sides of the specification, or the panic as None |
| Day20.SidesBits | src/day20.rs:19-28 | bit i of north, east, south and west is set exactly when image[0][i], image[i][9], image[9][i] and image[i][0] is '#' |
| Day20.SidesCorners | src/day20.rs:20-23 | the corners are shared: north bit 0 is west bit 0, north bit 9 is east bit 0, east bit 9 is south bit 9, south bit 0 is west bit 9 |
| Day20.SidesBound | src/day20.rs:19-28 | every side value is below 2^10 |
| Day20.SidesOfBorder | src/day20.rs:6-32 | the sides depend only on the border cells |
| Common.SplitBlankFromFirst | src/day20.rs:48-51 | the first piece of the split is the text read before the first blank line, a prefix of the input |
| Common.SplitBlankFirst | src/day20.rs:48-51 | only the text before the first blank line is read, and it is a prefix of the input |
| Day20.ParseU32 | src/day20.rs:54 | a tile number is a decimal numeral below 2^32 |
| Day20.TileNumberOf | src/day20.rs:53-54 | "word N:" gives N; the last character is dropped without being checked |
| Day20.TileNumber | src/day20.rs:53-54 | a tile number fits in 32 bits and is the second space-separated field of the header, without its last character, read as a number |
| Day20.ParseTile | src/day20.rs:52-74 | a parsed tile has ten rows of ten characters, a 32-bit number, and the four sides of its image |
| Day20.ParseImage | src/day20.rs:52-75 | the loop that builds one tile gives the tile the specification gives |
| Day20.InputGenerator | src/day20.rs:44-79 | the generator succeeds exactly when the first tile parses, and returns that tile alone |
| Day20.Indented | src/day20.rs:92-102 | every row of a tile text carries the same indentation |
| Day20.IndentedLine | src/day20.rs:52 | trimming an indented row of pixels gives the row back |
| Day20.TileLines | src/day20.rs:52 | the trimmed lines of a tile text are its header and its rows |
| Day20.TileTextLines | src/day20.rs:52 | the lines of a tile text are its header and its indented rows |
| Day20.TileLinesTrimmed | src/day20.rs:52 | trimming leaves the header and takes the indentation off every row |
| Day20.PixelRowsSides | src/day20.rs:6-32 | ten rows of ten pixels always have four sides |
| Day20.TileTextBlock | src/day20.rs:48-51 | a tile text is read whole as the first block |
| Day20.ParseTileText | src/day20.rs:44-79 | a tile written as "word N:" and ten pixel rows parses back to N, the rows and their sides |
| Day20.ExampleSides | src/day20.rs:92-110 | the test tile has north 300, east 616, south 924 and west 318 |
| Day20.ExampleTile | src/day20.rs:90-111 | the test input parses to tile 2311 with sides 300, 616, 924 and 318 |

## Left out

- Reading the puzzle input, the `aoc` runner attributes and printing are not modelled; each generator takes the input text as a parameter.
- Day 16 (`src/day16.rs`) is not modelled: it is regex-driven input parsing and a part 1 that returns the constant 5.
- Day 20's part 1 (`src/day20.rs:82-84`) returns the constant 123 and is not modelled.
- Day 19's part 1 and part 2 (`src/day19.rs:65-115`) are not modelled: they match messages against the compiled pattern with a regex engine. Only the compiled pattern text is modelled.
- Common.IsDigit: ASCII digits only. Rust's regex `\d` also matches other Unicode decimal digits, so `Day2`, `Day4` (hcl, pid, year fields), the `Day14` generator and the `Day18` patterns accept fewer texts than the source.
- Common.IsWordChar: ASCII letters, digits and '_' only. Rust's regex `\w` is Unicode-aware (affects `Day7`'s bag names and `Day2`).
- Day19.CompileParts: takes the second character of a literal part. The source slices bytes 1..2 (`src/day19.rs:38-39`), which panics when that byte range is not a whole character; the model does not fail there.
- Day18.MatchingOpen: the index of the matching '(' counts characters. The source returns the text's byte length minus 2 minus a character count (`src/day18.rs:22`), which is the character index only when every character after that '(' is one byte long. On text such as "(1\u{00A0}+ 2)" the source's index is off by one and its evaluation panics, while the model gives 3. The model is exact on ASCII text.
- Day18.MatchingOpenSpec: characterises the character index of `Day18.MatchingOpen`, not the source's mix of byte length and character count on non-ASCII text.
- Day18.FindMatchingParenthesisIndexRev: returns the character index, as `Day18.MatchingOpen` does, where the source subtracts a character count from a byte length.
- Day18.GroupLast1: slices the text by characters at the character index. The source slices bytes (`src/day18.rs:40-41`) at its mixed index, so on non-ASCII text such as "(1\u{00A0}+ 2)" it splits elsewhere or panics, where the model gives 3.
- Day18.Solve1: inherits the character indexing of `Day18.MatchingOpen` and `Day18.GroupLast1`, so `Day18.GroupLast` and `Day18.Part1` may give a value on non-ASCII text with a group where the source panics. On ASCII text they agree.
- Day20.TileNumber: drops the last character of the number field. The source drops the last byte (`src/day20.rs:54`), which panics on a non-ASCII last character; the model does not fail there.
- Fixed-width integers (u16, u32, u64, u128, usize, i32) are unbounded integers in the model; overflow panics and wrap-around are not modelled. This covers `add_usize` (`src/day8.rs:29-31`), the `u64` parse of a mask in `to_mask` (`src/day14.rs:15-27`), the `u128` sums of day 18, and the integer answers of the other days. Day 20's sides are proved below 1024 (`Day20.SidesBound`), so their `u32` sums cannot overflow.
- Day12.Ship.Rotate: a turn whose sum with the facing does not fit `u16` (`Day12.TurnFits`) is reported as a failure, and `Day12.Ship.Travel` and `Day12.Part1` pass it on as `None`. The source's debug build panics there and a release build wraps; the wrapped facing is not modelled.
- Day7.CountContainers: requires a ghost rank over the whole parsed rule map, which excludes cyclic rules anywhere. The source terminates whenever the part reachable from the bag has no cycle. `Day7.Part1` carries the same requirement.
- Day7.Part2: requires a ghost rank (`RankedRules`) over the whole map, where the source needs only the bags reachable from "shiny gold" to be acyclic.
- Day19.Compile: requires the whole grammar to be ranked. The source also terminates when only the reachable rules are acyclic, or when a known rule cuts a cycle. `Day19.GetRule` carries the same requirement.
- Day11.Part1: requires a ghost bound within which the rounds reach a stable layout. The source loops forever when no stable layout exists.
- Day13.Part2: requires a ghost bound (`Stops`) within which a timestamp is found. The source loops forever when none exists.
- Day9.FindEncryptionWeakness: returns `None` where no run sums to the target. There the source's search never stops, and the model does not capture that non-termination. `Day9.WeaknessSearch` and `Day9.FindEncryptionWeaknessAsWritten` behave the same way.
- Day4.Part2: the order in which the source's `HashMap` visits a passport's fields is a parameter of each passport (`EntryOrder`). `Day4.OrderIrrelevantWithoutPanic` and `Day4.PanicWithoutFailure` show that the answer depends on it only when one field panics and another fails.
- Day18.Solve2: the two group lemmas are proved: a flat expression gives the product of its sums (`Day18.FlatSolve2`), and one replacement step preserves the value (`Day18.Solve2Replaces`, `Day18.SplitStep`). A general theorem for arbitrarily nested groups with '+' before '*' is not proved; the nested unit tests are proved one by one.
- Day11: the example's 37 occupied seats (`src/day11.rs:135-139`) are not proved; several rounds on a 10 by 10 grid are beyond what the verifier evaluates.
- Day17: the example's 112 active cubes (`src/day17.rs:177-185`) are not proved; six cycles over the 18 by 18 by 18 cube are beyond what the verifier evaluates. The example's parse is proved.
- Day15: the tests with 2020 turns (`src/day15.rs:88-98`, answers 1 and 1665) are not proved, because of the number of turns. The ten-turn test is proved (`Day15.ExampleTenth`).
- Day13: the example answers of part 2 are proved aligned (`Day13.ExampleAligned1` to `Day13.ExampleAligned6`) but not proved to be the least such timestamps.
- Day7: the text-level parse tests (`src/day7.rs:110-142`) are not proved; the examples are proved from the parsed rules instead.
- Day4.GroupsOfPassports: the generator tests' literal texts and their key counts are not evaluated; the lemma proves the splitting for every text of their shape (blank-stretch separators, one passport per text), and `Day4.OneGroup` covers the single-passport test's shape.
- Day10: sorting the example's literal list is not proved; part 1's answer 220 is proved from the sorted chain.
- Running time is not modelled (for example the 30,000,000 turns of day 15, part 2).

## Findings

| source | as written | input that shows it | evidently intended | confidence | as-written member | corrected member |
|---|---|---|---|---|---|---|
| src/day9.rs:13-25 | `calc_valid_numbers` unions the pair sums of `preamble_length` windows starting at `start` to `start + preamble_length - 1`, so the windows reach past the candidate number | [5, 0, 7] with preamble 2: 7 = 0 + 7 is accepted although the two numbers before 7 are 5 and 0 | the pair sums of the `preamble_length` numbers just before the candidate | not executed | Day9.FindInvalidNumberAsWritten, Day9.WindowsReachPast | Day9.FindInvalidNumber |
| src/day15.rs:16-21 | the opening loop (and its copy in `find_nth_array`, src/day15.rs:45-50) records the 1-based turn `index + 1` (src/day15.rs:22) and then speaks `index - i` with the 0-based `index`, one less than the age, when the last starting number was spoken before | starting numbers [0, 0], turn 3: the model of the code speaks 0, the game says 1 | the age of the last starting number, counted in turns | not executed | Day15.RepeatedLastStart | Day15.PlayFixedIsGame |
