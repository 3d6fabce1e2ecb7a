# Advent of Code solutions — verified models of the puzzle cores

This project models, in Dafny, the algorithmic core of a collection of Advent of Code
solutions (Go for 2021, TypeScript and JavaScript for 2020–2025). Each puzzle day is a
standalone program that reads its input, runs a small deterministic algorithm and prints two
numbers; the model keeps the algorithm and drops the reading and printing. Each source file
becomes one Dafny module (file names follow the source: `y2021_go_day03.dfy` models
`2021/go/day-03/main.go`, `y2020_js_day16.dfy` models `2020/javascript/day-16/utils.js`, `js_day03.dfy` models `javascript/day-3/tree-counter.js`,
and `javascript_global_utils.dfy` models `javascript/global-utils/index.js`).
Code that changes state step by step is modelled by methods with loops and invariants, or by
classes whose methods update their fields; code built from expressions and recursion is
modelled by functions. Properties are stated as contracts and as lemmas relating the
operations to reference definitions.

Shared helpers: `common.dfy` (Option, sums, powers), `strings.dfy` (split, Go `Atoi`,
JavaScript `parseInt`, decimal formatting), `bits.dfy` (exclusive or on naturals, binary
values).

## Model

| member | source | states |
|---|---|---|
| SonarSweepGo.CountIncreases | 2021/go/day-01/main.go:17-30 | counts the i < len − windowSize with depths[i+windowSize] > depths[i]; the result is at most len − windowSize and 0 when windowSize = len; requires windowSize within the slice bounds |
| SonarSweepGo.CountIsWindowCount | 2021/go/day-01/main.go:18-22 | the pairwise count equals the number of increasing window sums (telescoping) |
| SonarSweepGo.WindowStep | 2021/go/day-01/main.go:18-22 | consecutive window sums increase iff the entering value exceeds the leaving one |
| SonarSweep.CountIncreasesBound | 2021/typescript/day-01/index.ts:28-33 | the reduce's count lies in 0..max(0, len − window) |
| SonarSweep.WindowCoversInput | 2021/typescript/day-01/index.ts:31 | window ≥ len yields 0 |
| SonarSweep.AgreesWithLoop | 2021/typescript/day-01/index.ts:28-33 | the reduce agrees with the Go loop's count for 0 ≤ window ≤ len |
| SonarSweep.CountsWindowIncreases | 2021/typescript/day-01/index.ts:13-33 | the reduce counts increasing window sums |
| Strings.SplitJoin | 2021/go/day-02/main.go:31-36 | splitting on a separator and joining back gives the input |
| Strings.DecimalRoundTrip | 2021/go/day-02/main.go:34 | the decimal value of a number's decimal text is the number |
| DiveGo.ParseFormat | 2021/go/day-02/main.go:31-36 | parsing "<dir> <n>" gives Instruction(dir, n) |
| DiveGo.ParseInstruction | 2021/go/day-02/main.go:31-36 | the direction read is the space-free text before the first space; ParseFormat gives the round trip |
| DiveGo.BasicSubmarine.Move | 2021/go/day-02/main.go:39-49 | up subtracts from depth, down adds, forward adds to position, anything else changes nothing |
| DiveGo.Submarine.Move | 2021/go/day-02/main.go:51-63 | up/down change aim only; forward adds val to position and val×aim to depth |
| DiveGo.SamePosition | 2021/go/day-02/main.go:39-63 | both variants reach the same position; the basic depth equals the aimed aim |
| DiveGo.VerticalOnlyAims | 2021/go/day-02/main.go:54-57 | up/down leave position and depth of the aimed submarine unchanged |
| DiveGo.Navigate | 2021/go/day-02/main.go:66-75 | the driver loop leaves each submarine at the fold of all instructions |
| Dive.Submarine.constructor | 2021/typescript/day-02/index.ts:22-27 | a new submarine is at position, depth and aim 0 |
| Dive.Submarine.Move | 2021/typescript/day-02/index.ts:33-52 | with useAim, behaves as the aimed step, otherwise as the basic step with aim kept; unknown directions change nothing |
| Dive.SameParseAsGo | 2021/typescript/day-02/index.ts:34-35 | on "<dir> <n>" the split/parseInt gives dir and n |
| BinaryDiagnosticGo.Gamma | 2021/go/day-03/main.go:28-50 | returns the counts-based gamma: '1' iff count ≥ len/2 (integer division) |
| BinaryDiagnosticGo.GammaLength | 2021/go/day-03/main.go:33-35 | gamma has one character per position of the longest string |
| BinaryDiagnosticGo.FirstStringSkipped | 2021/go/day-03/main.go:33-38 | with equal-width strings, every count is the column sum of all strings but the first |
| BinaryDiagnosticGo.SkippedStringCounterexample | 2021/go/day-03/main.go:33-47 | ["1","0"] gives gamma "0" although half the digits are 1 |
| BinaryDiagnosticGo.PowerClosedForm | 2021/go/day-03/main.go:72-78 | for widths up to 15 the power is g × (2^w − 1 − g) |
| BinaryDiagnosticGo.FilterBitCriteria | 2021/go/day-03/main.go:52-68 | panics on empty input or a too-short string, else returns "" whatever survived |
| BinaryDiagnosticGo.FilterPosition | 2021/go/day-03/main.go:56-65 | one pass at position i panics exactly when some string is too short for it; otherwise it keeps, in order, the strings that agree (or, for the least common, disagree) with gamma at i |
| BinaryDiagnosticGo.UniformNeverPanics | 2021/go/day-03/main.go:55-65 | with equal-width strings no index panics |
| BinaryDiagnosticGo.SurvivorsFromInput | 2021/go/day-03/main.go:56-65 | every survivor is one of the input strings |
| BinaryDiagnostic.GammaIsMajority | 2021/typescript/day-03/index.ts:21-27 | gamma digit i is 1 iff ones ≥ zeros in column i |
| BinaryDiagnostic.TieFavoursOne | 2021/typescript/day-03/index.ts:27 | a tie gives 1 |
| BinaryDiagnostic.FindPowerConsumption | 2021/typescript/day-03/index.ts:34-40 | NaN exactly when gamma is empty |
| BinaryDiagnostic.PowerIsGammaTimesEpsilon | 2021/typescript/day-03/index.ts:34-40 | power = gamma × (gamma with all bits flipped) |
| BinaryDiagnostic.FindByBitCriteria | 2021/typescript/day-03/index.ts:51-59 | the loop computes the reference Criteria: filter by gamma[i] XOR leastCommon, return the sole survivor, '' after the last position, TypeError when no row is left |
| BinaryDiagnostic.FoundIsAnInputRow | 2021/typescript/day-03/index.ts:55-56 | a returned value is one of the input rows |
| BinaryDiagnostic.MostCommonNeverThrows | 2021/typescript/day-03/index.ts:52-56 | the most-common filter never empties equal-width input |
| BinaryDiagnostic.SingleRowIsFixed | 2021/typescript/day-03/index.ts:51-57 | re-running the most-common filter on a single row returns it |
| GiantSquid.NewBoardIndexes | 2021/typescript/day-04/index.ts:21-49 | the constructor indexes every value to its own tile, and every tile starts unmarked |
| GiantSquid.BingoBoard.constructor | 2021/typescript/day-04/index.ts:38-49 | the nested loops build exactly the reference board and lookup |
| GiantSquid.MarkAbsent | 2021/typescript/day-04/index.ts:75-90 | a number not on the board changes nothing and scores 0 |
| GiantSquid.MarkOnlySets | 2021/typescript/day-04/index.ts:77 | marks are only ever set: old marks survive and the only new mark is the drawn number's tile |
| GiantSquid.ScoreMeansBingo | 2021/typescript/day-04/index.ts:78-88 | a non-zero score means the tile's column or row is complete, and equals num × the unmarked sum |
| GiantSquid.BingoBoard.CheckRow | 2021/typescript/day-04/index.ts:56-58 | true iff every tile of the row is marked |
| GiantSquid.BingoBoard.CheckColumn | 2021/typescript/day-04/index.ts:65-67 | true iff every row's tile in the column is marked |
| GiantSquid.BingoBoard.MarkNumber | 2021/typescript/day-04/index.ts:74-91 | updates the marks and returns the score as the reference Mark does |
| GiantSquid.PlayBingo | 2021/typescript/day-04/index.ts:101-109 | returns the first non-zero score in draw order, else 0, with every board marked up to that point |
| GiantSquid.FilterLosers | 2021/typescript/day-04/index.ts:124 | marks every board and keeps exactly the boards that did not score, in order |
| GiantSquid.KeptBoardsDidNotScore | 2021/typescript/day-04/index.ts:124 | every kept board is an input board marked with the number, which scored 0 |
| GiantSquid.FindLastWinnersScore | 2021/typescript/day-04/index.ts:118-131 | drops scoring boards while more than one remains, then returns the last board's first positive score; a TypeError when no board is left |
| GiantSquid.SingleBoardScore | 2021/typescript/day-04/index.ts:125-130 | with one board left the result is a score, never negative |
| Lanternfish.CountFish | 2021/typescript/day-06/index.ts:17-28 | builds the buckets, runs the day loop and returns the total, matching the reference simulation |
| Lanternfish.BucketsCountFish | 2021/typescript/day-06/index.ts:18-21 | bucket v holds the number of fish aged v, and the buckets together hold every fish |
| Lanternfish.DayTotal | 2021/typescript/day-06/index.ts:23-25 | a day's total is the previous total plus the previous bucket-0 count |
| Lanternfish.NoDaysCountsStart | 2021/typescript/day-06/index.ts:27 | days = 0 returns the number of starting fish |
| Lanternfish.NeverShrinks | 2021/typescript/day-06/index.ts:22-26 | the population never shrinks and no bucket goes negative |
| Lanternfish.DayMatchesFish | 2021/typescript/day-06/index.ts:22-26 | one bucket day equals one day of individual fish: timers tick, zeros reset to 6 and spawn an 8 |
| SyntaxScoring.FindBadChar | 2021/typescript/day-10/index.ts:16-32 | returns the first character that is not the closer popped from the expected stack (a closer on an empty stack included), or "" when there is none, incomplete lines included |
| SyntaxScoring.BadStays | 2021/typescript/day-10/index.ts:28 | once a bad character is found the rest of the line does not matter (early return) |
| SyntaxScoring.StackHoldsClosers | 2021/typescript/day-10/index.ts:25 | the expected stack only ever holds closers |
| SyntaxScoring.ScoreIllegal | 2021/typescript/day-10/index.ts:40-48 | sums 3/57/1197/25137 per bad closer, 0 for clean lines and for characters without a score |
| SyntaxScoring.CleanLinesScoreZero | 2021/typescript/day-10/index.ts:47 | lines without a bad character add nothing |
| SyntaxScoring.FindCompletion | 2021/typescript/day-10/index.ts:56-69 | returns the expected closers still pending, innermost first (reverse push order) |
| SyntaxScoring.CompletionIsClosers | 2021/typescript/day-10/index.ts:63-68 | a completion holds only closers, so every character has a part-2 score |
| SyntaxScoring.CompletionAgreesWithCheck | 2021/typescript/day-10/index.ts:23-67 | on a line that is not corrupted, findCompletion's stack is findBadChar's stack |
| SyntaxScoring.CompletionBalances | 2021/typescript/day-10/index.ts:56-69 | a line that is not corrupted followed by its completion scans to an empty stack |
| SyntaxScoring.ScoreCompletionAppend | 2021/typescript/day-10/index.ts:76-84 | the fold acc = 5×acc + score reads the completion as a base-5 number with digits 1..4 |
| SyntaxScoring.ScoreCompletionRange | 2021/typescript/day-10/index.ts:76-84 | a completion of length n scores in [(5^n − 1)/4, 5^n) |
| DumboOctopus.Cavern.constructor | 2021/typescript/day-11/index.ts:35-39 | the cavern holds the grid, its size is the sum of the row lengths, and no flash has happened |
| DumboOctopus.Cavern.Flash | 2021/typescript/day-11/index.ts:46-52 | counts one flash and leaves the grid as the reference flash does |
| DumboOctopus.FlashEffect | 2021/typescript/day-11/index.ts:46-52 | a flash zeroes the cell and raises by one exactly its in-grid, non-zero neighbours |
| DumboOctopus.FlashNonZero | 2021/typescript/day-11/index.ts:48-50 | with non-negative levels a flash turns exactly one non-zero cell into 0 |
| DumboOctopus.Cavern.Scan | 2021/typescript/day-11/index.ts:62-70 | one row-major scan flashes each cell above 9 when it is visited, and reports whether it flashed |
| DumboOctopus.PassCount | 2021/typescript/day-11/index.ts:62-70 | each flash in a scan removes one non-zero cell, so the do-while terminates |
| DumboOctopus.QuietPass | 2021/typescript/day-11/index.ts:65-71 | a scan that flashes nothing changes nothing and saw no cell above 9 |
| DumboOctopus.Cavern.Step | 2021/typescript/day-11/index.ts:58-72 | adds 1 to every cell, then rescans until no cell exceeds 9; flashes grows by exactly the number of flash calls |
| DumboOctopus.StepBounded | 2021/typescript/day-11/index.ts:60-71 | after a step every level is in 0..9 |
| DumboOctopus.SyncMeansAllZero | 2021/typescript/day-11/index.ts:83 | a step's flash count equals the number of cells at 0 afterwards, and equals the size iff every cell flashed |
| DumboOctopus.SizeIsCellCount | 2021/typescript/day-11/index.ts:37 | the sum of the row lengths is the number of cells |
| DumboOctopus.Cavern.FindSyncStep | 2021/typescript/day-11/index.ts:78-85 | returns the first step after which every octopus is at 0, searching up to a bound |
| DumboOctopus.Cavern.SearchRound | 2021/typescript/day-11/index.ts:78-85 | one search step leaves the grid after i steps and reports a synchronisation exactly when that grid is all 0, none before having been |
| ExtendedPolymerization.PolymerCounter.constructor | 2021/typescript/day-14/index.ts:28-50 | counts the template's characters and its len − 1 adjacent pairs, builds one two-target rule per pair (later rules override), and the character total is the pair total plus one |
| ExtendedPolymerization.TemplateCounts | 2021/typescript/day-14/index.ts:31-41 | each character and each adjacent pair is counted once per occurrence (the counts are the multisets), with totals len and len − 1 |
| ExtendedPolymerization.AddCountGet | 2021/typescript/day-14/index.ts:34 | adding n to key k, falling back to n when the sum is falsy, changes only key k, to its old count plus n (or n when the key is absent or the sum is 0) |
| ExtendedPolymerization.JsAddOrIsAddition | 2021/typescript/day-14/index.ts:60 | for non-negative counts the logical-or fallback to n is plain addition |
| ExtendedPolymerization.PolymerCounter.Step | 2021/typescript/day-14/index.ts:55-65 | requires a rule for every present pair; the pair total doubles and the character total grows by the pair total |
| ExtendedPolymerization.StepCounts | 2021/typescript/day-14/index.ts:55-65 | after a step, pair q's count is the sum over entries XY of count × (times q is a target of XY), and character c gains the counts of the pairs inserting c |
| ExtendedPolymerization.DifferenceIsLargestGap | 2021/typescript/day-14/index.ts:73-76 | countDifference is the largest difference between two character counts (max − min) |
| Snailfish.SplitLeafHalves | 2021/typescript/day-18/index.ts:38-49 | a leaf splits only from 10 up, into floor(v/2) and ceil(v/2) |
| Snailfish.SplitLeftmost | 2021/typescript/day-18/index.ts:38-49 | a split happens iff some number is 10 or more; exactly the leftmost such number is replaced by its halves (left before right, at most one split) |
| Snailfish.ExplodeSpec | 2021/typescript/day-18/index.ts:138-195 | explode acts on the leftmost pair of numbers nested four deep: its numbers are added to the nearest numbers on either side and it becomes 0; without such a pair nothing changes |
| Snailfish.ExplodeAllDone | 2021/typescript/day-18/index.ts:113-115 | the do-while leaves no pair nested four deep |
| Snailfish.AddIsReduced | 2021/typescript/day-18/index.ts:111-119 | add pairs the two numbers and reduces: the result has no pair nested four deep and no number of 10 or more |
| Snailfish.MagnitudeIsWeightedSum | 2021/typescript/day-18/index.ts:77-80 | magnitude (3 × left + 2 × right, a leaf's value) is the sum of the numbers weighted 3 per left turn and 2 per right turn |
| Snailfish.AddAsWrittenDiverges | 2021/typescript/day-18/index.ts:149-152 | as written, one addition never finishes: the parentless 0 of an explosion grows to 10 and its split changes nothing |
| Snailfish.AddReducesSameInput | 2021/typescript/day-18/index.ts:252 | with the 0 attached the same addition reduces to [[5,[[5,0],[5,0]]],[0,0]] |
| ReactorReboot.VolumeCountsPoints | 2021/typescript/day-22/index.ts:63-69 | the volume (product of max − min + 1 over the three axes) is the number of cubes a non-empty cuboid holds |
| ReactorReboot.OverlapIsIntersection | 2021/typescript/day-22/index.ts:78-92 | overlap is null exactly when the cuboids share no cube; otherwise its cuboid (max of minimums, min of maximums) holds exactly the shared cubes |
| ReactorReboot.OverlapsVolumeCounts | 2021/typescript/day-22/index.ts:109-117 | the inclusion–exclusion sum equals the number of cubes of the target covered by at least one compared cuboid |
| ReactorReboot.CountStep | 2021/typescript/day-22/index.ts:144-145 | processing one more (earlier) step adds exactly the cubes of an "on" cuboid that no later cuboid covers |
| ReactorReboot.LastStepWins | 2021/typescript/day-22/index.ts:22 | reading the reversed steps, a cube takes the state of the first step covering it, which is the state after applying all steps in order |
| ReactorReboot.Reboot | 2021/typescript/day-22/index.ts:139-146 | part 2 returns the number of cubes that are on after all steps |
| ReactorReboot.InitializationReboot | 2021/typescript/day-22/index.ts:119-137 | part 1 returns the number of cubes on after only the steps whose cuboid lies within −50..50 on every axis |
| SeaCucumber.MoveEast | 2021/typescript/day-25/index.ts:38-45 | the east loop over one row yields every '>' with an empty east cell (wrapping) moved into it, all at once on the row as it was, and keeps the row's cells as a multiset |
| SeaCucumber.StepEast | 2021/typescript/day-25/index.ts:34-45 | the east phase over all rows equals the simultaneous east move of every row, and keeps the floor's cells |
| SeaCucumber.MoveSouthRow | 2021/typescript/day-25/index.ts:50-55 | after the inner south loop over a row, every cell of the copy is as the south moves of all earlier cells leave it, read from the east-phase floor |
| SeaCucumber.StepSouth | 2021/typescript/day-25/index.ts:47-56 | the south phase equals the simultaneous move of every 'v' with an empty south cell (wrapping) on the east-phase floor, and keeps the floor's cells |
| SeaCucumber.Step | 2021/typescript/day-25/index.ts:33-59 | a step is the east phase followed by the south phase on its result, and no sea cucumber appears or disappears |
| SeaCucumber.StepAndCompare | 2021/typescript/day-25/index.ts:69-70 | reports "same" exactly when the stepped floor equals the old one |
| SeaCucumber.SettledIffStuck | 2021/typescript/day-25/index.ts:33-59 | a step leaves the floor unchanged exactly when no '>' has an empty east cell and no 'v' an empty south cell |
| SettleSearch.FinalIsFirstSettled | 2021/typescript/day-25/index.ts:66-73 | the search answers i exactly when the floor after i − 1 steps is the first one a step leaves unchanged |
| SeaCucumberFinalState.FindFinalState | 2021/typescript/day-25/index.ts:66-73 | the loop returns the answer of the search: the first step number after which the floor is unchanged, or None within the step limit |
| SeaCucumberFinalState.RingNeverSettles | 2021/typescript/day-25/index.ts:66-73 | on the floor ">." the '>' moves every step, so no step leaves it unchanged (the source loops for ever there) |
| SeaCucumberFinalState.RingSearchFails | 2021/typescript/day-25/index.ts:68 | on that floor the search finds no answer for any step limit |
| RockPaperScissors.MoveValue | 2022/day-02/index.ts:17-18 | A/X, B/Y, C/Z are shapes 1..3; any other letter looks up nothing (NaN) |
| RockPaperScissors.ScoreAssumingMove | 2022/day-02/index.ts:16-25 | part 1 gives a number exactly when our letter is a move, always in 1..9; an opponent letter outside the table (`undefined`) scores as a win, our shape plus 6 |
| RockPaperScissors.MoveScore | 2022/day-02/index.ts:22-24 | the source's arithmetic `((p1 + 4) % 3) + 1` scores every game of shapes as the rules do: own shape plus 0, 3 or 6 for a loss, draw or win, so every score is in 1..9 |
| RockPaperScissors.ScoreAssumingResult | 2022/day-02/index.ts:33-39 | part 2 gives a number exactly when the opponent's letter is A, B or C |
| RockPaperScissors.ResultScoreIsMoveScore | 2022/day-02/index.ts:36-38 | X, Y and any other letter ask for a loss, draw and win; exactly one shape reaches that outcome and part 2's score is part 1's score with it |
| RockPaperScissors.Total | 2022/day-02/index.ts:42-43 | the summed score is a number exactly when every game's score is |
| Rucksack.FindPriority | 2022/day-03/index.ts:16-17 | the priority is a number exactly for a non-empty item |
| Rucksack.PriorityOfLetters | 2022/day-03/index.ts:16-17 | a..z have priorities 1..26 and A..Z 27..52 |
| Rucksack.PriorityInjective | 2022/day-03/index.ts:16-17 | distinct letters have distinct priorities |
| Rucksack.Half | 2022/day-03/index.ts:28 | a position is in the first half exactly when twice it is below the length (real division) |
| Rucksack.FindSharedItem | 2022/day-03/index.ts:25-32 | returns the first second-half item that occurs in the first half, and the empty string exactly when there is none |
| Rucksack.LetterKeys | 2022/day-03/index.ts:40-41 | the keys of the letter dictionary are the backpack's distinct chars, each once |
| Rucksack.DigitKeys | 2022/day-03/index.ts:52 | integer-like keys (digits) come first, ascending |
| Rucksack.OtherKeys | 2022/day-03/index.ts:40-41 | the other keys come in order of first appearance, each once |
| Rucksack.FirstInAll | 2022/day-03/index.ts:52-55 | the first key every backpack of the group holds, and that no earlier key is held by all |
| Rucksack.FindBadge | 2022/day-03/index.ts:50-56 | returns that first shared key, the empty string when there is none or the group is empty |
| Rucksack.BadgeFound | 2022/day-03/index.ts:50-56 | when some char is in every backpack of a non-empty group, a badge is found |
| Rucksack.Chunk | 2022/day-03/index.ts:66-70 | the chunks concatenate to the input, all but the last have chunkSize elements, the last 1..chunkSize, and there are ceil(length / chunkSize) of them |
| CampCleanup.FindOverlap | 2022/day-04/index.ts:28-33 | NaN exactly when the intervals are apart; otherwise max of the starts to min of the ends |
| CampCleanup.Length | 2022/day-04/index.ts:36-39 | the length is positive exactly for an interval with numeric bounds whose start is not after its end |
| CampCleanup.OverlapIsIntersection | 2022/day-04/index.ts:28-33 | the overlap covers exactly the sections both intervals cover |
| CampCleanup.Sections | 2022/day-04/index.ts:13-21 | the sections of an inclusive interval |
| CampCleanup.LengthCountsSections | 2022/day-04/index.ts:36-39 | the length of a well-formed interval is the number of sections it covers |
| CampCleanup.FullyContainedMeansSubset | 2022/day-04/index.ts:65-68 | equal overlap and interval lengths mean exactly that one interval covers every section of the other |
| CampCleanup.IsFullyContained | 2022/day-04/index.ts:65-68 | for well-formed intervals, equal overlap and interval lengths mean exactly that one interval's bounds lie within the other's |
| CampCleanup.AnyOverlapMeansShared | 2022/day-04/index.ts:76 | a positive overlap length means exactly that some section is covered by both |
| CampCleanup.HasAnyOverlap | 2022/day-04/index.ts:76 | for well-formed intervals, a positive overlap length means exactly that each starts no later than the other ends |
| CampCleanup.CountPairs | 2022/day-04/index.ts:79-80 | the answers count at most all the pairs |
| CampCleanup.ContainedPairsOverlap | 2022/day-04/index.ts:65-76 | every pair counted by part 1 is also counted by part 2 |
| SupplyStacks.PopPushTimesMovesReversed | 2022/day-05/index.ts:47-51 | the 9000 takes the top min(quantity, height) crates off the source one by one, so they land on the target reversed; other stacks are unchanged |
| SupplyStacks.PopPushTimesSource | 2022/day-05/index.ts:48-49 | after the 9000 loop the source has lost its top min(quantity, height) crates |
| SupplyStacks.PopPushTimesTarget | 2022/day-05/index.ts:48-50 | after the 9000 loop the target has those crates on top, in reverse order |
| SupplyStacks.PopPushTimes | 2022/day-05/index.ts:46-51 | the 9000 loop keeps the number of stacks and touches no stack but the source and the target |
| SupplyStacks.PopPushTimesSameStack | 2022/day-05/index.ts:48-51 | with the source as target the 9000 changes nothing |
| SupplyStacks.BlockMovesInOrder | 2022/day-05/index.ts:52-56 | the 9001 moves the top min(quantity, height) crates as one block in order, and the whole stack when quantity is 0 because slice(-0) is slice(0) |
| SupplyStacks.Block | 2022/day-05/index.ts:52-56 | the 9001 move keeps the number of stacks, touches no stack but the source and the target, and keeps their combined height |
| SupplyStacks.Process | 2022/day-05/index.ts:46-57 | with either crane an instruction keeps the number of stacks and changes only its source and target stacks |
| SupplyStacks.ProcessKeepsCrates | 2022/day-05/index.ts:46-57 | with either crane the multiset of all crates is unchanged |
| SupplyStacks.TopsOf | 2022/day-05/index.ts:60-62 | the tops string has one letter per non-empty stack, the last crate of each, and an empty stack contributes nothing |
| SupplyStacks.Cargo.constructor | 2022/day-05/index.ts:36-38 | the cargo holds the given stacks, as its own copy |
| SupplyStacks.Cargo.ProcessInstruction | 2022/day-05/index.ts:46-57 | the stacks become the result of the instruction for the chosen crane, and every crate is kept |
| SupplyStacks.GetTopCratesAfterInstructions | 2022/day-05/index.ts:91-98 | the cargo ends as every instruction applied in order, and the answer is its tops |
| TuningTrouble.FindMarker | 2022/day-06/index.ts:18-33 | returns i + 1 for the first i ≥ windowSize − 1 whose last windowSize characters are all different, so the answer lies in windowSize..length and every earlier window repeats a character; −1 when there is none; windowSize itself when windowSize ≤ 0 |
| TreetopForest.EdgeVisible | 2022/day-08/index.ts:50-94 | a tree on the edge is visible, since the loop towards that edge is empty |
| TreetopForest.ViewLeftMeaning | 2022/day-08/index.ts:102-107 | the left viewing distance d is at most col; the d − 1 trees passed are strictly shorter, and the last one seen is at least as tall unless d reaches the edge |
| TreetopForest.ViewRightMeaning | 2022/day-08/index.ts:115-120 | the same to the right; with a rectangular grid the fallback `heights[0].length - col - 1` is the distance to the row's edge |
| TreetopForest.EdgeScenicZero | 2022/day-08/index.ts:102-146 | a tree on the edge has a viewing distance of 0 towards it, so its scenic score is 0 |
| TreetopForest.VisibleInRowCounts | 2022/day-08/index.ts:38 | the running count of a row is the number of its visible trees |
| TreetopForest.RowScenicMaxIsMax | 2022/day-08/index.ts:39 | the running maximum of a row is at least every tree's scenic score and is one of them, or the initial 0 |
| TreetopForest.ScenicMaxIsMax | 2022/day-08/index.ts:39 | the highest scenic score is at least every tree's score and is one of them, or the initial 0 |
| TreetopForest.Forest.constructor | 2022/day-08/index.ts:22-42 | the forest keeps the heights, counts the trees visible from some side, and keeps the highest scenic score |
| TreetopForest.Forest.Survey | 2022/day-08/index.ts:26-35 | a tree is counted exactly when it is visible from the bottom, left, right or top, and its score is the product of the four viewing distances |
| TreetopForest.Forest.IsVisibleLeft | 2022/day-08/index.ts:50-55 | true exactly when every tree to the left is strictly shorter |
| TreetopForest.Forest.IsVisibleRight | 2022/day-08/index.ts:63-68 | true exactly when every tree to the right is strictly shorter |
| TreetopForest.Forest.IsVisibleTop | 2022/day-08/index.ts:76-81 | true exactly when every tree above is strictly shorter |
| TreetopForest.Forest.IsVisibleBottom | 2022/day-08/index.ts:89-94 | true exactly when every tree below is strictly shorter |
| TreetopForest.Forest.ViewingDistanceLeft | 2022/day-08/index.ts:102-107 | the loop returns the left viewing distance |
| TreetopForest.Forest.ViewingDistanceRight | 2022/day-08/index.ts:115-120 | the loop returns the right viewing distance |
| TreetopForest.Forest.ViewingDistanceUp | 2022/day-08/index.ts:128-133 | the loop returns the upward viewing distance |
| TreetopForest.Forest.ViewingDistanceDown | 2022/day-08/index.ts:141-146 | the loop returns the downward viewing distance |
| RopeBridge.TouchingStays | 2022/day-09/index.ts:48-56 | a knot at most one away on both axes from its predecessor does not move |
| RopeBridge.FollowIsOneStepTowards | 2022/day-09/index.ts:49-56 | a knot moves at most one on each axis and never away from its predecessor |
| RopeBridge.FollowTouches | 2022/day-09/index.ts:49-56 | a knot at most two away on each axis ends up touching its predecessor |
| RopeBridge.PullFromConnects | 2022/day-09/index.ts:70-72 | updating knots i .. end in order, after knot i − 1 moved by at most one, leaves every knot touching its predecessor |
| RopeBridge.StepKeepsConnected | 2022/day-09/index.ts:66-72 | a head step of one unit followed by updating segments 1 .. n − 1 in order keeps the rope connected |
| RopeBridge.StepsKeepConnected | 2022/day-09/index.ts:66-74 | the same over the `distance` steps of a move |
| RopeBridge.RunMovesKeepsConnected | 2022/day-09/index.ts:37 | the same over every move the constructor applies |
| RopeBridge.Rope.constructor | 2022/day-09/index.ts:34-38 | every knot starts at (0, 0), then each move is applied in order; the rope stays connected |
| RopeBridge.Rope.UpdateSegmentPosition | 2022/day-09/index.ts:44-57 | an index below 1 throws and changes nothing; otherwise only knot i changes, to `Follow` of its predecessor |
| RopeBridge.Rope.ApplyMove | 2022/day-09/index.ts:63-75 | the knots become `distance` unit steps of the old rope, and the tail positions before and after each step are added to the visited set |
| RopeBridge.MakeRope | 2022/day-09/index.ts:34-35 | a length below 2 is refused (the `RangeError`); any other length builds the rope |
| CathodeRayTube.TraceShape | 2022/day-10/index.ts:49-58 | a noop appends one entry and an addx two, every one a number, so a program appends #noop + 2 × #addx entries |
| CathodeRayTube.HistoryShape | 2022/day-10/index.ts:13-14 | a fresh CPU's history after `processProgram` is NaN, then one number per cycle, then the final register: 2 + #noop + 2 × #addx entries in all |
| CathodeRayTube.CPU.constructor | 2022/day-10/index.ts:13-17 | the register starts at 1 and the history as [NaN] |
| CathodeRayTube.CPU.ProcessInstruction | 2022/day-10/index.ts:49-58 | the history gains the current register once for any instruction and once more for addx; only addx changes the register, by its argument |
| CathodeRayTube.CPU.ProcessProgram | 2022/day-10/index.ts:23-28 | the instructions run in order and the final register is appended to the history |
| CathodeRayTube.CPU.GetSignalStrengthSum | 2022/day-10/index.ts:37-43 | the sum of i × history[i] over i = start, start + freq, … up to and including the history's length, NaN wherever an index falls outside the recorded numbers |
| CathodeRayTube.SignalSum | 2022/day-10/index.ts:37-43 | a NaN at any visited cycle makes the whole sum NaN; with non-negative cycles and register values a numeric sum is not negative |
| CathodeRayTube.SignalSumDefined | 2022/day-10/index.ts:37-43 | on a CPU history the sum is a number exactly when the start is past the end, or is at least 1 and no visited cycle equals the history's length |
| CathodeRayTube.RunCPU | 2022/day-10/index.ts:62-63 | a fresh CPU running a program ends with a history of 2 + #noop + 2 × #addx entries |
| CathodeRayTube.ScreenPixel | 2022/day-10/index.ts:79-88 | the pixel of row r, column j shows cycle r × rowWidth + j + 1 and is lit exactly when the register then is within (spriteWidth − 1) / 2 of column j |
| CathodeRayTube.Pixel | 2022/day-10/index.ts:86-88 | a pixel is lit or dark; it is lit only for a cycle inside the history and a sprite at least one wide, and always when the register equals the column |
| CathodeRayTube.DrawPixel | 2022/day-10/index.ts:86-88 | the loop's test draws exactly the pixel of that cycle |
| CathodeRayTube.PushWhenFull | 2022/day-10/index.ts:82-85 | with a row width above 1, the test i % rowWidth = 1 fires exactly when the pending row holds rowWidth pixels |
| CathodeRayTube.DrawCRT | 2022/day-10/index.ts:73-91 | the output joins with newlines the complete rows only: (length − 1) / rowWidth of them, none for a row width of 1, and never the last, partial row |
| MonkeyMiddle.ThrowAllShape | 2022/day-11/index.ts:101-110 | throwing a monkey's items keeps the number of monkeys and the thrower's own queue, and adds exactly the thrown items to the total |
| MonkeyMiddle.TurnConserves | 2022/day-11/index.ts:101-111 | after `processItems` the monkey's own queue is empty and the total number of items across monkeys is unchanged |
| MonkeyMiddle.TotalItemsUpdate | 2022/day-11/index.ts:102-108 | replacing one queue changes the total item count by the difference of the queue lengths |
| MonkeyMiddle.TurnsConserve | 2022/day-11/index.ts:142 | after any prefix of a round's turns the total item count is unchanged |
| MonkeyMiddle.RoundsConserve | 2022/day-11/index.ts:140-144 | after any number of rounds the total item count across monkeys is unchanged |
| MonkeyMiddle.Inspections | 2022/day-11/index.ts:109-142 | one inspection count per monkey that has had its turn in the round |
| MonkeyMiddle.AddCounts | 2022/day-11/index.ts:109 | the element-wise sum of two inspection-count vectors |
| MonkeyMiddle.RoundCounts | 2022/day-11/index.ts:140-144 | one accumulated inspection count per monkey |
| MonkeyMiddle.ModDividesProduct | 2022/day-11/index.ts:14-133 | every test modulus divides the product of all of them |
| MonkeyMiddle.ModOfMultiple | 2022/day-11/index.ts:6-7 | a mod n = (a mod k·n) mod n for positive k and n |
| MonkeyMiddle.ReducedWorrySameTarget | 2022/day-11/index.ts:9-165 | reducing the new worry by the product of the moduli sends the item to the same monkey as the unreduced worry would |
| MonkeyMiddle.ProductOfModsPositive | 2022/day-11/index.ts:133 | with positive test moduli their product is positive, so part 2 never divides by 3 |
| MonkeyMiddle.TopTwo | 2022/day-11/index.ts:148-151 | two different positions such that no other count exceeds the second and nothing exceeds the first, as the descending sort and `slice(0, 2)` select |
| MonkeyMiddle.MonkeyBusiness | 2022/day-11/index.ts:147-153 | the product of the two largest counts; one count alone for a single monkey and 1 for none, as the reduce over the slice gives |
| MonkeyMiddle.Pack.constructor | 2022/day-11/index.ts:94-134 | each monkey starts with a copy of its starting items and no inspections; the modulus is 0 when dividing by 3, otherwise the product of the test moduli |
| MonkeyMiddle.Pack.ProcessItems | 2022/day-11/index.ts:100-165 | the monkey's queue is emptied in order, each item's new worry (floor(op/3) without a modulus, op % modulus with one) goes to trueIndex iff it is divisible by the test modulus, and its inspection count grows by the number of items it held |
| MonkeyMiddle.Pack.PlayRounds | 2022/day-11/index.ts:140-144 | `count` rounds of every monkey's turn in order: the queues are the reference rounds and each inspection count grows by the inspections of those rounds |
| MonkeyMiddle.Pack.PlayRound | 2022/day-11/index.ts:142 | one round: the queues are those after every monkey's turn in order and each inspection count grows by that monkey's inspections in the round |
| DistressSignal.ToArrayIfNeeded | 2022/day-13/index.ts:38-39 | an integer becomes a list of the same size (itself alone); a list yields its items, which are strictly smaller, so the comparison's recursion ends |
| DistressSignal.CompareElements | 2022/day-13/index.ts:43-49 | an element comparison is null exactly for two equal integers (an integer/list mix is wrapped and compared as lists, which always answers), and an element never compares as coming before itself |
| DistressSignal.IsInRightOrder | 2022/day-13/index.ts:51-57 | a list is never in the right order against itself: no element decides and equal lengths give false |
| DistressSignal.InOrderAsymmetric | 2022/day-13/index.ts:42-58 | if a pair is in the right order, the swapped pair is not |
| DistressSignal.ElementsAsymmetric | 2022/day-13/index.ts:43-49 | an element comparison answering true answers false with the elements swapped |
| DistressSignal.FlatListsAgree | 2022/day-13/index.ts:51-57 | on lists of integers the written comparison is true exactly when the corrected one is: the first differing integer decides, else the shorter list |
| DistressSignal.EqualSublistCounterexample | 2022/day-13/index.ts:48-57 | as written `[[1],2]` vs `[[1],3]` is judged out of order, while the corrected comparison decides on 2 < 3 |
| DistressSignal.CompareListsReflexive | 2022/day-13/index.ts:51-57 | the corrected list comparison leaves a list undecided (null) against itself |
| DistressSignal.CompareListsAntisymmetric | 2022/day-13/index.ts:42-58 | the corrected list comparison negates its answer when the lists are swapped and stays null when undecided |
| DistressSignal.CompareAntisymmetric | 2022/day-13/index.ts:43-49 | the corrected element comparison negates its answer when the elements are swapped |
| Snafu.DigitValue | 2022/day-25/index.ts:11-23 | a SNAFU digit's value is its index in "=-012" minus 2, so it lies in −2..2; any other character counts −3 (index −1) |
| Snafu.FromSnafu | 2022/day-25/index.ts:19-23 | the reverse-and-reduce value of a numeral of n SNAFU digits lies between −(5^n − 1)/2 and (5^n − 1)/2 (proved by TermsBound, digit by digit) |
| Snafu.FromSnafuSnoc | 2022/day-25/index.ts:19-23 | appending a digit multiplies the value by 5 and adds the digit: the last character has weight 5^0 |
| Snafu.TermsSnoc | 2022/day-25/index.ts:20-23 | the reduce over the reversed digits, extended by one more digit on the right |
| Snafu.SnafuOf | 2022/day-25/index.ts:30-38 | every character of the conversion is one of "=-012" |
| Snafu.ToSnafu | 2022/day-25/index.ts:30-38 | the loop emits digit (n+2)%5 and continues with floor((n+2)/5); 0 and negative numbers give ''; every character is a SNAFU digit; and fromSnafu of the result is the number for every n ≥ 0 |
| Snafu.SnafuRoundTrip | 2022/day-25/index.ts:14-38 | fromSnafu(toSnafu(n)) = n for every n ≥ 0 |
| Snafu.CanonicalPositive | 2022/day-25/index.ts:19-23 | a numeral of SNAFU digits that starts with 1 or 2 has a positive value |
| Snafu.SnafuOfFromSnafu | 2022/day-25/index.ts:14-38 | every numeral toSnafu can produce (SNAFU digits, leading 1 or 2) is toSnafu of its own value: the other round trip |
| CubeConundrum.FirstCount | 2023/day-02/index.ts:26-28 | a colour missing from a draw counts 0; otherwise the count of that colour's first entry |
| CubeConundrum.ParseDraw | 2023/day-02/index.ts:25-29 | each colour's count in the parsed draw is its first entry's count, or 0 |
| CubeConundrum.IsPossible | 2023/day-02/index.ts:43-50 | true exactly when every draw is within the bag in every colour |
| CubeConundrum.MinimumCubes | 2023/day-02/index.ts:62-70 | every draw fits the result (so the game is possible under its own minimum), and each colour's count is 0 or some draw's count of it |
| CubeConundrum.MinimumIsLeast | 2023/day-02/index.ts:62-70 | any bag with which the game is possible holds at least the minimum of every colour: the result is the per-colour maximum |
| CubeConundrum.CubePower | 2023/day-02/index.ts:78 | the product red × blue × green, zero exactly when some colour count is zero |
| Scratchcards.Intersection | 2023/day-04/index.ts:20-27 | walking the smaller set and keeping what the bigger one has yields exactly the elements in both sets |
| Scratchcards.ParseCard | 2023/day-04/index.ts:34-42 | the numbers become sets, matches is the size of their intersection, and points is matches for fewer than two matches, else 2^(matches − 1) |
| Scratchcards.PointsDouble | 2023/day-04/index.ts:40 | from one match on, each further match doubles the points |
| Scratchcards.ProcessCards | 2023/day-04/index.ts:50-58 | card i adds its own won copies plus one to each of the next `matches` cards (past the last card too); the answer is the sum of all won copies plus the number of cards, so at least the number of cards |
| Scratchcards.Reach | 2023/day-04/index.ts:53-54 | one past the furthest index any card adds to, at least the number of cards |
| Scratchcards.NothingBeyondReach | 2023/day-04/index.ts:53-54 | no copies are won at indices no card reaches |
| Scratchcards.ContributionsSettled | 2023/day-04/index.ts:52-56 | once the loop has passed card t, t's counter no longer changes |
| Scratchcards.ContributionsFlat | 2023/day-04/index.ts:52-56 | past the last card nothing more is added to any counter |
| Scratchcards.SumOfWon | 2023/day-04/index.ts:57 | the sum of the counters is the total of the won copies |
| Scratchcards.TotalWithinDeck | 2023/day-04/index.ts:50-58 | when no card reaches past the last one, only the counters of real cards contribute |
| Scratchcards.ReachAtMost | 2023/day-04/index.ts:53-54 | if every card stays below a bound, so does the furthest index reached |
| SeedMaps.MapThrough | 2023/day-05/index.ts:63-69 | the first map with source ≤ x ≤ source + length − 1 sends x to destination + (x − source), so at most one map applies; an uncovered x passes through unchanged |
| SeedMaps.DisjointAnyMap | 2023/day-05/index.ts:63-69 | with non-overlapping source ranges, whichever map covers x decides, whatever the order of the maps |
| SeedMaps.EmptyRangesPassThrough | 2023/day-05/index.ts:65 | maps of length 0 or less cover nothing, so such a category changes no value |
| SeedMaps.Locate | 2023/day-05/index.ts:60-71 | a seed passes through the categories in order; when no category has a map of positive length, the location is the seed itself |
| SeedMaps.MapCategory | 2023/day-05/index.ts:63-69 | the scan over one category's maps, stopping at the first covering map, gives exactly that category's mapping of the location |
| SeedMaps.LocateSeed | 2023/day-05/index.ts:61-70 | the loop over the categories takes a seed to its location |
| SeedMaps.ApplyMaps | 2023/day-05/index.ts:58-74 | one location per seed, in seed order, each the seed passed through every category in turn |
| CamelCards.CardLookup | 2023/day-07/index.ts:32-46 | J is the joker (0, the lowest value) with jokers and the jack (10) otherwise; every value is at most 13 and only a J in joker mode is 0 |
| CamelCards.LookupInjective | 2023/day-07/index.ts:32-46 | different labels get different values in either mode |
| CamelCards.TopTwo | 2023/day-07/index.ts:85-87 | the first two entries of the counts sorted in descending order, 0 where there are none |
| CamelCards.CardCounts | 2023/day-07/index.ts:73 | for each of the 14 values, how many cards of the hand have it (0 when absent from the map) |
| CamelCards.TypeOf | 2023/day-07/index.ts:88-94 | the ladder five, four, three + two, three, two + two, two, else high card yields a type in 0..6 |
| CamelCards.HandType | 2023/day-07/index.ts:82-95 | the type computed from the card counts, with jokers added to the top count when in use, is one of the seven types 0..6 |
| CamelCards.NewHand | 2023/day-07/index.ts:70-76 | a hand keeps one value per card label and its bet; every value is at most 13, 0 exactly for a J in joker mode, and the type is in 0..6 |
| CamelCards.FiveJokers | 2023/day-07/index.ts:83-88 | JJJJJ with jokers is five of a kind: the joker count is removed from the counts and added to the top count 0 |
| CamelCards.TypeExtremes | 2023/day-07/index.ts:82-95 | without jokers a hand of one repeated label is five of a kind and five distinct labels are a high card |
| CamelCards.AtMostOnce | 2023/day-07/index.ts:73 | with pairwise distinct cards every count is at most 1 |
| CamelCards.CompareFrom | 2023/day-07/index.ts:107-111 | the card loop answers −1, 0 or 1 |
| CamelCards.CompareCards | 2023/day-07/index.ts:104-112 | different types decide (1 iff a's type is higher), equal types go to the first differing card, and the answer is −1, 0 or 1 |
| CamelCards.CompareAntisymmetric | 2023/day-07/index.ts:104-112 | swapping the hands negates the comparison |
| CamelCards.CompareFromAntisymmetric | 2023/day-07/index.ts:107-111 | swapping the card sequences negates the card-by-card comparison |
| CamelCards.CompareFromPastB | 2023/day-07/index.ts:108-109 | past the end of b's cards (undefined) no card decides |
| CamelCards.CompareFromZero | 2023/day-07/index.ts:107-111 | for equal-length hands the card comparison is 0 exactly when the cards are the same |
| CamelCards.WinningsBounds | 2023/day-07/index.ts:115-120 | with non-negative bets, Σ bet × rank lies between the sum of bets and the number of hands times that sum |
| CamelCards.Winnings | 2023/day-07/index.ts:115-120 | with non-negative bets the total winnings are non-negative |
| CamelCards.BetSumNonNegative | 2023/day-07/index.ts:115-120 | the sum of non-negative bets is non-negative |
| MirageMaintenance.Differences | 2023/day-09/index.ts:21-24 | the row of consecutive differences is one shorter than its row (empty for an empty row) |
| MirageMaintenance.DifferencesExt | 2023/day-09/index.ts:21-24 | a row built by pushing previousNumbers[i] − previousNumbers[i − 1] for i = 1.. is the difference row |
| MirageMaintenance.DiffRows | 2023/day-09/index.ts:17-29 | row 0 is the input and there are at most len + 1 rows, so the loop always ends |
| MirageMaintenance.DiffRowsShape | 2023/day-09/index.ts:20-27 | every row but the last has a non-zero entry and is followed by its differences; the last row is all zeros (an empty row counts as all zeros) |
| MirageMaintenance.FindDifferences | 2023/day-09/index.ts:17-29 | the loop appends difference rows while the last row has a non-zero entry, giving exactly the reference rows |
| MirageMaintenance.Extrapolate | 2023/day-09/index.ts:44-51 | folds from the second-last row up: forward adds row[i].at(0) to the accumulator, backwards takes row[i].at(−1) minus it, missing entries reading 0 |
| MirageMaintenance.ExtrapolateAsWritten | 2023/day-09/index.ts:44-51 | the fold as written, reading the first entry forward and the last backwards, agrees with the intended extrapolation whenever every row starts and ends with the same entry |
| MirageMaintenance.ExtrapolateIntended | 2023/day-09/index.ts:31-39 | the documented extrapolation (last entries forward, first entries backwards) is 0 when every entry it reads is 0 |
| MirageMaintenance.CombineEndsAgree | 2023/day-09/index.ts:47-49 | when every row's ends agree, the loop's fold gives the same value whichever end it reads |
| MirageMaintenance.CombineZero | 2023/day-09/index.ts:46-49 | when every entry read is 0 the loop's fold stays at its starting 0 |
| MirageMaintenance.CombineShift | 2023/day-09/index.ts:47-49 | the fold over rows with one more row in front continues as the fold over the rest |
| MirageMaintenance.CombineUnfold | 2023/day-09/index.ts:47-49 | the fold over a history's rows is 0 for an all-zero history, else its picked entry plus or minus the fold over its differences |
| MirageMaintenance.ConstantRow | 2023/day-09/index.ts:20 | a non-zero constant row is not all zeros and has all-zero differences |
| MirageMaintenance.ArithmeticDifferences | 2023/day-09/index.ts:21-24 | the differences of an arithmetic history are its step |
| MirageMaintenance.ConstantHistory | 2023/day-09/index.ts:44-51 | a constant history extrapolates to its constant in every mode |
| MirageMaintenance.ArithmeticHistory | 2023/day-09/index.ts:31-39 | with the last entries forward and the first backwards, a, a+d, …, a+(n−1)d extends to a + n·d forward and a − d backwards |
| MirageMaintenance.ArithmeticAsWritten | 2023/day-09/index.ts:45-48 | as written, an arithmetic history with non-zero step extrapolates to a + d forward and a + (n − 2)·d backwards, never the intended values |
| MirageMaintenance.DocExampleAsWritten | 2023/day-09/index.ts:36-45 | the documented example [1, 2, 3, 4] expects 5 forward; the code reads index 0 and gives 2 |
| HotSprings.CountPossibilities | 2023/day-12/index.ts:21-61 | the recursion with its scan loop returns exactly the reference count of arrangements, check by check |
| HotSprings.Arrangements | 2023/day-12/index.ts:21-61 | a row has an arrangement only when the runs plus one gap between neighbours fit in it, and, when a run is asked for, only when some spring is not known to be operational |
| HotSprings.NoRunsNoHash | 2023/day-12/index.ts:30 | a row has no damaged run exactly when it holds no '#' |
| HotSprings.RunsFit | 2023/day-12/index.ts:32-34 | the runs of a row plus one gap between neighbours never need more than the row's length, which is why check 3 may reject |
| HotSprings.DeterminedArrangements | 2023/day-12/index.ts:21-57 | on a row with no unknowns the count is 1 when its runs of '#' are the counts and 0 otherwise |
| HotSprings.UnknownSplits | 2023/day-12/index.ts:59-60 | a leading '?' counts the arrangements with '#' there plus those with '.' there |
| HotSprings.ArrangementsBound | 2023/day-12/index.ts:21-61 | the count never exceeds 2 to the number of unknowns |
| PointOfIncidence.Transpose | 2023/day-13/index.ts:32 | column c of the result, for each column of the first row, is column c of the pattern read top to bottom |
| PointOfIncidence.TransposeTwice | 2023/day-13/index.ts:31-32 | reading the columns as rows gives the rows back, so no character is lost |
| PointOfIncidence.NewPattern | 2023/day-13/index.ts:30-33 | the pattern stores the rows as given and the columns as their transpose |
| PointOfIncidence.NumPairs | 2023/day-13/index.ts:56 | the reflected pairs inside the map are none, or at most line + 1 of them all ending before the map's end |
| PointOfIncidence.IsMirrorLine | 2023/day-13/index.ts:55-60 | true exactly when every reflected pair of rows inside the map is equal |
| PointOfIncidence.HasOneSmudge | 2023/day-13/index.ts:62-74 | true exactly when the reflected pairs differ in one character in total |
| PointOfIncidence.MirrorIffNoSmudge | 2023/day-13/index.ts:55-74 | on a rectangular map, a line is a mirror line exactly when it has no smudge |
| PointOfIncidence.FirstLine | 2023/day-13/index.ts:41-53 | 0 exactly when no line reflects; otherwise one past the first line that reflects |
| PointOfIncidence.FindLine | 2023/day-13/index.ts:41-53 | the scan over lines returns one past the first reflecting line, or 0 |
| PointOfIncidence.Summary | 2023/day-13/index.ts:35-39 | the column line when there is one, otherwise 100 times the row line |
| PointOfIncidence.ColumnMirror | 2023/day-13/index.ts:32-60 | a column is a mirror line exactly when every row reads the same reflected about it |
| ReflectorDish.SwapFacts | 2023/day-14/index.ts:26-29 | one roll keeps the shape, the cube rocks and each column's round rocks, raises the load by one and lowers the distance to the north edge by one |
| ReflectorDish.RowSweepFacts | 2023/day-14/index.ts:25-31 | a sweep of one row keeps what rolling keeps; if it flagged an update the rocks moved north, otherwise nothing in the rest of the row could move |
| ReflectorDish.SweepFacts | 2023/day-14/index.ts:23-32 | one pass of the do-while body keeps what rolling keeps; a pass that sets no update flag changed nothing and left no movable rock |
| ReflectorDish.TiltFacts | 2023/day-14/index.ts:19-35 | after rolling north no rock can roll; cube rocks stay put, each column keeps its round rocks and the load never drops |
| ReflectorDish.TiltSettled | 2023/day-14/index.ts:22-33 | rolling a platform on which nothing can move changes nothing |
| ReflectorDish.Tilt | 2023/day-14/index.ts:19-35 | the repeated sweeps end, and the rolled platform has as many rows as before |
| ReflectorDish.WeightedNonNegative | 2023/day-14/index.ts:76-78 | a weighted sum of round-rock counts whose weights stay positive over the rows summed is never negative |
| ReflectorDish.Load | 2023/day-14/index.ts:76-78 | the total load, each row weighted by its distance from the south edge, is never negative |
| ReflectorDish.RotateCW | 2023/day-14/index.ts:71-73 | the turned platform has the old width as height and cell (c, r) is old cell (h − 1 − r, c) |
| ReflectorDish.RotateTwice | 2023/day-14/index.ts:71-73 | two turns put the platform upside down and mirrored |
| ReflectorDish.RotateFourTimes | 2023/day-14/index.ts:47-73 | four quarter turns give the platform back |
| ReflectorDish.SpinsAdd | 2023/day-14/index.ts:46-50 | running a + m spin cycles is running m cycles from the platform after a |
| ReflectorDish.TargetEquivalent | 2023/day-14/index.ts:55-56 | the equivalent cycle lies between the earlier occurrence and the current cycle |
| ReflectorDish.Periodic | 2023/day-14/index.ts:53-57 | once the platform after p cycles reappears after n, every count of cycles from n on gives the platform of its equivalent cycle |
| ReflectorDish.RepeatFound | 2023/day-14/index.ts:51-57 | at a repeat, the load recorded for the equivalent cycle is the load after the target number of cycles, and it is not negative |
| ReflectorDish.SeenDistinct | 2023/day-14/index.ts:52-60 | while the seen map holds every platform with its own cycle number, all platforms so far are distinct |
| ReflectorDish.NoRepeatUpTo | 2023/day-14/index.ts:46-62 | when the loop of `cycle` runs out, the last platform is the one after `target` cycles and no two platforms of cycles 1..target were equal |
| ReflectorDish.Platform.constructor | 2023/day-14/index.ts:14-16 | the platform holds the given layout |
| ReflectorDish.Platform.RollNorth | 2023/day-14/index.ts:19-35 | the layout becomes the tilted old layout, the fixpoint of the sweeps |
| ReflectorDish.Platform.RotateClockwise | 2023/day-14/index.ts:71-73 | the layout becomes the old layout turned clockwise |
| ReflectorDish.Platform.SpinCycle | 2023/day-14/index.ts:47-50 | the layout after four tilt-and-turn steps |
| ReflectorDish.Platform.Cycle | 2023/day-14/index.ts:43-63 | a result other than −1 is the load after `target` spin cycles, and the layout is left at the platform of the first cycle (at most `target`) whose platform repeats an earlier one; −1 means no platform repeated in `target` cycles and the layout is the one after them |
| ReflectorDish.Platform.CycleRound | 2023/day-14/index.ts:47-60 | one pass spins once and records the load; an answer other than −1 is the load after `target` cycles and comes at the first repeating cycle, the layout being that cycle's platform; −1 keeps the cache and the loads in step with the platforms so far |
| ReflectorDish.CheckRepeat | 2023/day-14/index.ts:52-60 | a platform seen before answers with the load recorded for the equivalent cycle, which is the load after `target` cycles, and makes this the first cycle whose platform repeats; a new platform is added to the cache under its cycle number |
| ReflectorDish.RepeatIsFirst | 2023/day-14/index.ts:52-54 | a platform found in the cache of cycles 1..n − 1 is the platform after n cycles, the earlier ones all differ, and so n is the first repeating cycle |
| ReflectorDish.Platform.TotalLoad | 2023/day-14/index.ts:76-78 | the load of the platform's layout, never negative |
| LensLibrary.HashStep | 2023/day-15/index.ts:19 | one reduce step lands in 0..255 |
| LensLibrary.HashFrom | 2023/day-15/index.ts:19 | the reduce over no characters keeps the start value and over any characters gives a box number |
| LensLibrary.HashRange | 2023/day-15/index.ts:8-19 | every hash names one of the 256 boxes and the empty string hashes to 0 |
| LensLibrary.HashConcat | 2023/day-15/index.ts:19 | hashing a concatenation continues from the hash of the first part |
| LensLibrary.HashSnoc | 2023/day-15/index.ts:11-15 | appending a character applies one more add-multiply-reduce step to the hash |
| LensLibrary.LetterRunEnd | 2023/day-15/index.ts:39 | the greedy `[a-z]+` ends at the first non-letter after its start |
| LensLibrary.ParseFormat | 2023/day-15/index.ts:39-44 | the pattern reads back the label and operation from `label-` and `label=N` for any non-empty lower-case label |
| LensLibrary.Slot | 2023/day-15/index.ts:45 | `findBy` finds the first lens with the label, or reports none when no lens has it |
| LensLibrary.Without | 2023/day-15/index.ts:42 | `removeBy` never lengthens the box |
| LensLibrary.WithoutOnlyOthers | 2023/day-15/index.ts:42 | after `removeBy` every lens left was in the box and none has the label |
| LensLibrary.WithoutConcat | 2023/day-15/index.ts:42 | removing by label distributes over concatenation |
| LensLibrary.WithoutAbsent | 2023/day-15/index.ts:42 | a box without the label is left as it is |
| LensLibrary.WithoutDistinct | 2023/day-15/index.ts:32-42 | on a box with distinct labels `-` drops exactly the lens with the label, keeping the others in order |
| LensLibrary.WithoutKeepsDistinct | 2023/day-15/index.ts:42 | removing keeps the labels of a box distinct |
| LensLibrary.UpsertFacts | 2023/day-15/index.ts:33-47 | `=` keeps labels distinct, leaves the labelled lens holding the new focal length, changes no other lens, and grows the box exactly when the label was absent |
| LensLibrary.UpsertTwice | 2023/day-15/index.ts:44-47 | setting a label twice keeps only the second focal length |
| LensLibrary.WithoutUpsert | 2023/day-15/index.ts:41-47 | removing a label after setting it equals removing it right away |
| LensLibrary.Apply | 2023/day-15/index.ts:38-49 | an instruction keeps 256 boxes |
| LensLibrary.ApplyOtherBoxes | 2023/day-15/index.ts:40-47 | only the box the label hashes to changes |
| LensLibrary.BoxPowerUpdate | 2023/day-15/index.ts:46-63 | changing the focal length in slot j changes the power by (box + 1) × (j + 1) × the change |
| LensLibrary.BoxPowerAppend | 2023/day-15/index.ts:47-63 | a lens added at the back of box b adds (b + 1) × its slot × its focal length |
| LensLibrary.EmptyPower | 2023/day-15/index.ts:24-68 | 256 empty boxes have no focusing power |
| LensLibrary.LensConfiguration.constructor | 2023/day-15/index.ts:24 | 256 empty boxes |
| LensLibrary.LensConfiguration.ProcessInstruction | 2023/day-15/index.ts:38-49 | the boxes become the old boxes with the parsed instruction applied, and every box keeps distinct labels |
| LensLibrary.LensConfiguration.FocusingPower | 2023/day-15/index.ts:58-68 | the double loop sums (box + 1) × slot × focal length over every lens |
| Aplenty.Set | 2023/day-19/index.ts:54-58 | `{ ...range, [field]: i }` replaces that field's interval and keeps the other three |
| Aplenty.SplitAgrees | 2023/day-19/index.ts:48-61 | while the pivot lies inside the field's interval, the split as written equals the clamped split |
| Aplenty.CountCut | 2023/day-19/index.ts:68 | cutting an interval at a point inside it divides the count of combinations between the two halves |
| Aplenty.SplitRangeSound | 2023/day-19/index.ts:46-61 | with the pivot clamped, each part of the range lands in exactly one half, the passing half exactly when it passes the condition |
| Aplenty.SplitRangeCount | 2023/day-19/index.ts:46-68 | the counts of the two clamped halves add up to the count of the range |
| Aplenty.AsWrittenWidens | 2023/day-19/index.ts:57 | as written, `x>500` applied to x in [1000, 4001) passes [501, 4001): a part outside the range is counted and the halves over-count |
| Aplenty.FirstTargetSpec | 2023/day-19/index.ts:109-115 | the target is that of the first condition the part passes, or the fallback when it passes none |
| Aplenty.FindTarget | 2023/day-19/index.ts:109-115 | the loop with `break` returns the first passing condition's target, else the fallback |
| Aplenty.Route | 2023/day-19/index.ts:108-118 | a decided outcome is always "A" or "R" |
| Aplenty.RouteMoreFuel | 2023/day-19/index.ts:108-118 | a decision reached within some number of workflows stays the same with any larger allowance |
| Aplenty.ProcessPart | 2023/day-19/index.ts:106-120 | the loop from "in" returns the status its workflow chain reaches, or the crash on a missing workflow |
| Aplenty.PassesBound | 2023/day-19/index.ts:130-151 | with the clamped split no range is counted for more accepted combinations than it holds |
| Aplenty.OverlappingConditions | 2023/day-19/index.ts:130-151 | for `in{x<1000:R,x>500:A,R}` the split as written counts 3500 × 4000³ accepted combinations, the clamped split the true 3001 × 4000³, and x = 600 is rejected |
| Aplenty.GetPossiblePasses | 2023/day-19/index.ts:130-151 | the loop over conditions and then the fallback, recursing into target workflows, gives the count of the reference recursion with the split as written |
| PulsePropagation.Send | 2023/day-20/index.ts:24-52 | one pulse to each target, in the order of the targets, all from the sender |
| PulsePropagation.InitialMemory | 2023/day-20/index.ts:35-37 | `setInputs` remembers exactly the given inputs, each at a low pulse |
| PulsePropagation.FlipFlopIgnoresHigh | 2023/day-20/index.ts:19-27 | a flip-flop given a high pulse keeps its state and sends nothing |
| PulsePropagation.FlipFlopToggles | 2023/day-20/index.ts:21-25 | on a low pulse a flip-flop switches and sends, to each target, high exactly when it is now on |
| PulsePropagation.FlipFlopTwoLows | 2023/day-20/index.ts:22 | two low pulses bring a flip-flop back to its state |
| PulsePropagation.ConjunctionRemembers | 2023/day-20/index.ts:39-44 | a conjunction records the source's pulse, keeps the other inputs' pulses, and sends low to every target exactly when all remembered pulses are high |
| PulsePropagation.ConjunctionSingleInput | 2023/day-20/index.ts:39-44 | a conjunction whose only input is the source inverts the pulse |
| PulsePropagation.BroadcasterForwards | 2023/day-20/index.ts:47-54 | the broadcaster keeps no state and sends the same pulse from "broadcaster" to every target |
| PulsePropagation.Run | 2023/day-20/index.ts:84-89 | handling the queue never uses more pulses than allowed |
| PulsePropagation.RunCountsEveryPulse | 2023/day-20/index.ts:85-86 | every handled pulse is counted exactly once |
| PulsePropagation.RunCountsGrow | 2023/day-20/index.ts:86 | the low and the high counts only grow |
| PulsePropagation.PressesCountButton | 2023/day-20/index.ts:81-83 | after n completed presses at least n low pulses were counted |
| PulsePropagation.NoModules | 2023/day-20/index.ts:79-92 | with no module each press counts just the button's low pulse |
| PulsePropagation.PressesStayStopped | 2023/day-20/index.ts:81-90 | once a press runs out of pulses, later presses change nothing |
| PulsePropagation.Machine.constructor | 2023/day-20/index.ts:56-57 | the machine holds the given modules |
| PulsePropagation.Machine.PushButton | 2023/day-20/index.ts:79-92 | the modules after n presses, handled first in first out, and lows × highs; `complete` tells whether every press emptied its queue |
| RedNosedReports.IsSafe | 2024/day-02/index.ts:22-30 | true exactly when every step is 1 to 3 in size and has the sign of the first step; a report of fewer than two levels is safe |
| RedNosedReports.SafeIsMonotone | 2024/day-02/index.ts:15-17 | the levels of a safe report all increase or all decrease |
| RedNosedReports.MonotoneIsSafe | 2024/day-02/index.ts:15-17 | conversely, a report that all increases or all decreases by steps of 1 to 3 is safe |
| RedNosedReports.Remove | 2024/day-02/index.ts:46 | `toSpliced(i, 1)` is one shorter and skips exactly index i |
| RedNosedReports.IsSafeWithTolerance | 2024/day-02/index.ts:41-50 | true exactly when the report is safe or some single removal makes it safe |
| RedNosedReports.ShortToleranceSafe | 2024/day-02/index.ts:33-36 | every report of at most two levels is safe with the tolerance |
| RedNosedReports.SafeDropLast | 2024/day-02/index.ts:45-47 | dropping the last level of a safe report keeps it safe |
| RedNosedReports.SafePlusOneLevel | 2024/day-02/index.ts:33-36 | a safe report with any one level appended is safe with the tolerance |
| PrintQueue.LookupMeaning | 2024/day-05/index.ts:41-49 | the lookup has a page exactly when some rule starts with it, and lists for it exactly the second pages of its rules |
| PrintQueue.ParseRules | 2024/day-05/index.ts:41-49 | the loop builds the lookup rule by rule, creating an empty set on a page's first rule |
| PrintQueue.IsUpdateValid | 2024/day-05/index.ts:51-59 | true exactly when no page's rules name a page printed before it |
| PrintQueue.ValidAgainstRules | 2024/day-05/index.ts:41-59 | with the lookup the rules build, an update is valid exactly when no rule puts a later page before an earlier one |
| PrintQueue.ShortValid | 2024/day-05/index.ts:51-59 | an update of at most one page is valid |
| PrintQueue.ValidPrefix | 2024/day-05/index.ts:53-57 | every prefix of a valid update is valid |
| PrintQueue.MiddleNumber | 2024/day-05/index.ts:61-63 | a page of the update exactly when the update is not empty (`undefined` otherwise) |
| PrintQueue.MiddleSplits | 2024/day-05/index.ts:61-63 | the middle page has as many pages after it as before, or one fewer for an even length |
| PrintQueue.MiddleOfReversed | 2024/day-05/index.ts:61-63 | for an odd number of pages the middle is the same read from either end |
| BridgeRepair.DecimalAppend | 2024/day-07/index.ts:31 | the value of appended digit strings is the first value shifted left by the second's length plus the second |
| BridgeRepair.ConcatArithmetic | 2024/day-07/index.ts:30-31 | `con(a, b)` is a × 10^(digits of b) + b |
| BridgeRepair.Expand | 2024/day-07/index.ts:48 | the flatMap gives one value per candidate and operator |
| BridgeRepair.ExpandMembers | 2024/day-07/index.ts:48 | a value comes out of the flatMap exactly when some operator applied to some candidate and n gives it |
| BridgeRepair.CandidatesCount | 2024/day-07/index.ts:45-49 | after k + 1 elements there is one candidate per choice of k operators |
| BridgeRepair.CandidatesMeaning | 2024/day-07/index.ts:33-49 | the candidates are exactly the strictly left-to-right values over every choice of operators |
| BridgeRepair.IsValid | 2024/day-07/index.ts:43-51 | the loop's final candidates contain the target exactly when some left-to-right combination makes it; an equation without elements is never valid |
| BridgeRepair.MoreOperators | 2024/day-07/index.ts:65-66 | adding operators never makes a valid equation invalid, so part two keeps every part one target |
| BridgeRepair.ValidTargets | 2024/day-07/index.ts:60-62 | never more targets than equations |
| BridgeRepair.ValidTargetsMeaning | 2024/day-07/index.ts:60-62 | a target is kept exactly when it belongs to a valid equation |
| BridgeRepair.ValidTargetsAppend | 2024/day-07/index.ts:60-62 | filtering two lists of equations is filtering each, in order |
| DiskFragmenter.Repeat | 2024/day-09/index.ts:25 | `Array(n).fill(value)` holds n copies of the value |
| DiskFragmenter.MapToBlock | 2024/day-09/index.ts:21-27 | the block has one cell per unit of the disk map (the sum of its entries), and every file id in it is i/2 for some even entry i of the map |
| DiskFragmenter.MapToBlockCount | 2024/day-09/index.ts:21-27 | file k occupies exactly as many cells as entry 2k says, and ids beyond the map do not appear |
| DiskFragmenter.BlockChecksum | 2024/day-09/index.ts:54-56 | Σ index × id over the occupied cells is never negative, and it is zero exactly when every occupied cell is at index 0 or holds file 0 |
| DiskFragmenter.TrailingFreeSpace | 2024/day-09/index.ts:54-56 | free cells at the end add nothing to the block checksum |
| DiskFragmenter.CompressBlock | 2024/day-09/index.ts:35-46 | with both the outer loop and the inner scan for a file block stopping at the left cursor, a fresh copy holding the same cells with every free cell after every file cell |
| DiskFragmenter.LastFile | 2024/day-09/index.ts:40 | `while (compressed[j] === null) j--` stops at the last file cell at or below j, or below 0 |
| DiskFragmenter.AsWrittenCounterexample | 2024/day-09/index.ts:37-43 | as written, the disk map [1, 2, 1] compresses to [0, free, 1, free], which is not compacted |
| DiskFragmenter.DiskToFiles | 2024/day-09/index.ts:65-74 | one entry per disk map entry, each starting where the previous ones end, files at even indices |
| DiskFragmenter.MoveAcrossShrinks | 2024/day-09/index.ts:86-94 | the inner loop keeps every id and file size, only moves the file left and only shrinks free spans from the left |
| DiskFragmenter.MoveFromShrinks | 2024/day-09/index.ts:85-95 | the whole compression keeps every id and file size, files never move right and free spans keep their ends |
| DiskFragmenter.MoveIntoOnlyWhenRoom | 2024/day-09/index.ts:89-93 | a file moves only into a span that starts at or before it and has room, and then starts where the span started |
| DiskFragmenter.Insert | 2024/day-09/index.ts:96 | one insertion step of the stable sort adds exactly the given entry |
| DiskFragmenter.InsertSorted | 2024/day-09/index.ts:96 | inserting into a list sorted by position keeps it sorted |
| DiskFragmenter.SortByPosPermutes | 2024/day-09/index.ts:96 | the sort is a permutation of its input |
| DiskFragmenter.SortByPosSorted | 2024/day-09/index.ts:96 | the sort orders the entries by position |
| DiskFragmenter.NonEmpty | 2024/day-09/index.ts:96 | the filter keeps only entries of non-zero size |
| DiskFragmenter.CompressFiles | 2024/day-09/index.ts:82-97 | the loops over a copy give the reference compression, sorted by position and a permutation of the non-empty moved entries |
| DiskFragmenter.FileChecksum | 2024/day-09/index.ts:105-113 | the loop sums the closed form of every file entry, free spans adding nothing |
| DiskFragmenter.FileCellsDouble | 2024/day-09/index.ts:109 | twice the position × id sum over a file's cells is id × size × (2·pos + size − 1) |
| DiskFragmenter.FileTermMatchesCells | 2024/day-09/index.ts:54-109 | the closed form of a file equals the block checksum of its own cells, so the two parts' checksums agree |
| DiskFragmenter.NonEmptyKeepsSum | 2024/day-09/index.ts:96 | dropping empty entries keeps the checksum |
| DiskFragmenter.SortKeepsSum | 2024/day-09/index.ts:96 | the order of the entries does not change the checksum |
| DiskFragmenter.CompressedChecksum | 2024/day-09/index.ts:96-113 | the checksum of the filtered, sorted result is that of the moved entries |
| ChronospatialComputer.Step | 2024/day-17/index.ts:30-38 | one pass of the loop body outputs a 3-bit value |
| ChronospatialComputer.StepZero | 2024/day-17/index.ts:30-38 | on A = 0 the step outputs 4 |
| ChronospatialComputer.Run | 2024/day-17/index.ts:45-52 | the loop outputs the step on A, then on A / 8, and so on until A is 0 |
| ChronospatialComputer.ShiftIsDivision | 2024/day-17/index.ts:49 | dividing by 8 k times is dividing by 8^k |
| ChronospatialComputer.OutputAt | 2024/day-17/index.ts:45-52 | output k is the step on A / 8^k and exists exactly while that is not 0 |
| ChronospatialComputer.OutputLength | 2024/day-17/index.ts:19-52 | the output has one value per octal digit of A |
| ChronospatialComputer.CandidatesMeaning | 2024/day-17/index.ts:59-83 | `findCandidate(A, index)` pushes exactly the numbers whose digits above `index` give A and whose outputs 0..index match the program |
| ChronospatialComputer.FindCandidate | 2024/day-17/index.ts:77-83 | the recursion with its loop over B pushes the reference candidates, in order |
| ChronospatialComputer.AllCandidatesMeaning | 2024/day-17/index.ts:85 | the top-level loop collects exactly the numbers below 8^len that match the program at every index |
| ChronospatialComputer.QuineDigits | 2024/day-17/index.ts:55-72 | the output is the program exactly when A has as many octal digits as the program has values and every digit matches |
| ChronospatialComputer.CandidatesAreQuines | 2024/day-17/index.ts:59-72 | when the step on 0 is not the last program value, the candidates are exactly the values of A whose output is the program |
| ChronospatialComputer.Minimum | 2024/day-17/index.ts:86 | `Math.min` returns a member no larger than any other, and none (Infinity) for no candidates |
| ChronospatialComputer.FindQuine | 2024/day-17/index.ts:75-87 | the search returns the minimum of the collected candidates |
| ChronospatialComputer.FindQuineIsSmallest | 2024/day-17/index.ts:55-73 | the result outputs the program and is at most every A that does, and it is missing only when no A does |
| ChronospatialComputer.ProgramAvoidsZeroStep | 2024/day-17/index.ts:2-62 | the puzzle's program ends in 0 while the step on 0 gives 4, so its search is exact |
| MonkeyMarket.ModulusIsPow2 | 2024/day-22/index.ts:15 | the prune modulus 16777216 is 2^24 |
| MonkeyMarket.Prune | 2024/day-22/index.ts:15 | a pruned secret is below 16777216 |
| MonkeyMarket.NextSecret | 2024/day-22/index.ts:17-26 | every next secret is below 2^24 |
| MonkeyMarket.MixProperties | 2024/day-22/index.ts:14 | mixing is symmetric, mixing a value into itself clears it and mixing in 0 changes nothing |
| MonkeyMarket.MixMulLowBits | 2024/day-22/index.ts:19-20 | mixing a secret with a multiple of itself, kept to k low bits, depends only on the secret's low k bits |
| MonkeyMarket.NextSecretLowBits | 2024/day-22/index.ts:17-26 | only the low 24 bits of a secret matter: pruning it first gives the same next secret |
| MonkeyMarket.SecretsAdd | 2024/day-22/index.ts:28-34 | m steps then n more are m + n steps |
| MonkeyMarket.RotateSecret | 2024/day-22/index.ts:28-34 | the loop applies `nextSecret` exactly `count` times |
| MonkeyMarket.Price | 2024/day-22/index.ts:39-43 | a price is a decimal digit |
| MonkeyMarket.GetPrices | 2024/day-22/index.ts:37-47 | the prices are the last digits of the first max(count, 1) secrets and the diffs the changes between neighbours, each within −9..9 |
| MonkeyMarket.PricesFromDiffs | 2024/day-22/index.ts:43-44 | every price is the first price plus the differences before it |
| CodeChronicle.ParseSchematic | 2024/day-25/index.ts:14-22 | one height per column of the first row, each the column's number of '#' less one; a lock exactly when the first row starts with '#' |
| CodeChronicle.HeightBounds | 2024/day-25/index.ts:15-20 | every height lies between −1 and one less than the number of rows |
| CodeChronicle.FullColumn | 2024/day-25/index.ts:16-19 | a column that is '#' in every row counts every row |
| CodeChronicle.FitsSymmetric | 2024/day-25/index.ts:41 | for equally wide schematics, fitting does not depend on which is the lock |
| CodeChronicle.Filter | 2024/day-25/index.ts:35-36 | the filter keeps only schematics of the asked kind, taken from the input |
| CodeChronicle.FilterSplits | 2024/day-25/index.ts:35-36 | every schematic is either a lock or a key |
| CodeChronicle.KeysFitting | 2024/day-25/index.ts:40-42 | one lock fits at most every key |
| CodeChronicle.FittingPairsBound | 2024/day-25/index.ts:39-44 | at most every lock fits every key |
| CodeChronicle.FlatPairsAllFit | 2024/day-25/index.ts:41 | when every height is 0, every lock fits every key |
| CodeChronicle.CountFittingPairs | 2024/day-25/index.ts:34-45 | the double loop counts the fitting lock and key pairs, at most #locks × #keys |
| SecretEntrance.Click | 2025/day-01/index.ts:32-34 | after one click the dial is on a position 0..99, whatever it was on before |
| SecretEntrance.ClickIsModular | 2025/day-01/index.ts:32-34 | from a ring position a click is a step of ±1 modulo 100 |
| SecretEntrance.TurnIsModular | 2025/day-01/index.ts:30-34 | from a ring position n clicks move the dial by ±n modulo 100 |
| SecretEntrance.ZerosDuring | 2025/day-01/index.ts:35 | at most one hit per click |
| SecretEntrance.ZerosClosedForm | 2025/day-01/index.ts:31-36 | the clicks landing on 0 during a rotation are ⌊(n + offset) / 100⌋, the offset being pos going right and 100 − pos going left |
| SecretEntrance.FindPassword | 2025/day-01/index.ts:21-40 | the loops count the rotations ending at 0, or with `countAllClicks` every click landing on 0 |
| SecretEntrance.AllClicksCountEnds | 2025/day-01/index.ts:35-37 | when every rotation clicks at least once, counting every click finds at least the rotations ending at 0 |
| SecretEntrance.ZeroStepRotation | 2025/day-01/index.ts:31-37 | a zero-click rotation from 0 counts 1 in the first mode and 0 in the second |
| Lobby.SkipIsSafe | 2025/day-03/index.ts:16 | a leading digit below the best leading digit so far can never beat the best number so far |
| Lobby.FindBankJoltage | 2025/day-03/index.ts:13-24 | a value 0..99 at least every 10 × bank[i] + bank[j] with i < j and equal to one of them; 0 for fewer than two batteries |
| Cafeteria.InsertSorted | 2025/day-05/index.ts:24 | one insertion step of the stable sort keeps a list sorted by lower bound |
| Cafeteria.InsertPermutes | 2025/day-05/index.ts:24 | one insertion step adds exactly the given range and loses none |
| Cafeteria.ParseRanges | 2025/day-05/index.ts:20-25 | the ranges come back sorted by lower bound and as a permutation of the input |
| Cafeteria.ParseRangesKeepsContainment | 2025/day-05/index.ts:20-25 | sorting does not change whether some range contains an ingredient |
| Cafeteria.FreshScanSound | 2025/day-05/index.ts:32-38 | a true answer always names a range containing the ingredient |
| Cafeteria.FreshScanComplete | 2025/day-05/index.ts:32-38 | on ranges sorted by lower bound the scan answers true exactly when some range contains the ingredient |
| Cafeteria.IsFresh | 2025/day-05/index.ts:32-38 | the loop returns the answer of the first range that decides, and false for no ranges |
| Cafeteria.UnsortedMisses | 2025/day-05/index.ts:24-34 | without the sort the early `return false` misses 1 in [[5, 6], [1, 2]] |
| Factory.MaskOf | 2025/day-10/index.ts:58 | the mask has one 0/1 flag per button |
| Factory.MaskRoundTrip | 2025/day-10/index.ts:57-58 | every mask of n flags is the binary digits of exactly one i below 2^n, so the loop over i meets every mask |
| Factory.LightToggles | 2025/day-10/index.ts:60-66 | the toggle array is as wide as the pattern, counts at every light the toggles of the pressed buttons, and grows exactly when a pressed button names a light beyond the pattern |
| Factory.CountButton | 2025/day-10/index.ts:61-65 | one pressed button adds 1 at every light it names, as often as it names it, and reports whether it names a light beyond the pattern |
| Factory.LightState | 2025/day-10/index.ts:68-70 | the state string has a '#' exactly where the toggle count is odd |
| Factory.FindMinimumPresses | 2025/day-10/index.ts:53-78 | None (Infinity) exactly when no mask gives the pattern; otherwise the press count of some matching mask that no matching mask undercuts |
| Factory.Total | 2025/day-10/index.ts:347-366 | there is at least one vector within any bounds (the empty one when there are none) |
| Factory.RankBound | 2025/day-10/index.ts:347-366 | a vector within the bounds ranks below the number of such vectors |
| Factory.RankInjective | 2025/day-10/index.ts:347-366 | different vectors within the bounds have different ranks |
| Factory.RankCarry | 2025/day-10/index.ts:358-364 | resetting the trailing positions at their bounds and bumping the next one adds exactly one to the rank |
| Factory.RankOfMaximum | 2025/day-10/index.ts:359-363 | the vector at every bound, where the odometer stops, is the last one |
| Factory.RankOfZero | 2025/day-10/index.ts:353 | the all-zero start vector is the first one |
| Factory.Advance | 2025/day-10/index.ts:358-364 | one odometer turn either reports that every position was at its bound or moves to the next vector within the bounds |
| Factory.EnumerateParameterCombinations | 2025/day-10/index.ts:347-366 | the yielded vectors lie within the bounds and come in odometer order, the k-th having rank k, one per vector within the bounds |
| Factory.EnumeratesEachOnce | 2025/day-10/index.ts:347-366 | the enumeration yields every vector within the bounds, and none twice |
| Factory.SwapEntries | 2025/day-10/index.ts:251-252 | the two entries trade places and every other entry stays |
| Factory.DotSwap | 2025/day-10/index.ts:265-271 | swapping the same two entries of a row and of the unknowns keeps the row's value |
| Factory.DotCombine | 2025/day-10/index.ts:298-302 | a row that is an exactly divided combination of two rows has that combination of their values for any unknowns |
| Factory.Gcd | 2025/day-10/index.ts:296 | the divisor is positive whenever the pivot is non-zero |
| Factory.GcdDivides | 2025/day-10/index.ts:296 | the divisor divides both scales |
| Factory.ExactCombination | 2025/day-10/index.ts:298-302 | dividing the scaled combination by a common divisor of both scales is exact |
| Factory.Combine | 2025/day-10/index.ts:298-300 | the new row is as wide as the target row |
| Factory.Eliminate | 2025/day-10/index.ts:287-303 | only the target row and its counter change, and the row keeps its width |
| Factory.EliminateZeroes | 2025/day-10/index.ts:287-303 | with a non-zero pivot the target's entry in the pivot column becomes 0, and every new entry is an exact integer quotient of the scaled combination |
| Factory.EliminateKeepsSolutions | 2025/day-10/index.ts:287-303 | eliminating with a non-zero pivot from another row keeps exactly the same solutions |
| Factory.SwapRowsKeepsSolutions | 2025/day-10/index.ts:249-253 | swapping two equations together with their counters keeps exactly the same solutions |
| Factory.SwapColumns | 2025/day-10/index.ts:265-269 | every row has the two columns swapped |
| Factory.SwapColumnsKeepsSolutions | 2025/day-10/index.ts:265-271 | after a column swap, a vector solves the system exactly when it solves the old one with the same two unknowns swapped |
| Factory.NonZeroIndices | 2025/day-10/index.ts:218-223 | the kept indices are increasing, each names a row with a non-zero entry, and every such row is kept |
| Factory.Pick | 2025/day-10/index.ts:224-225 | the k-th kept entry is the entry at the k-th index |
| Factory.RemoveConsistentZeroRows | 2025/day-10/index.ts:217-226 | when every zero row has counter 0, dropping the zero rows keeps exactly the same solutions |
| Factory.ZeroRowCounterexample | 2025/day-10/index.ts:217-226 | one button over counters 2 and 3: elimination leaves the row 0 = 1, the removal drops it, and x = 2 solves what remains though the original system has no solution |
| Factory.CheckedRemovalKeepsSolutions | 2025/day-10/index.ts:217-226 | a removal that refuses a zero row with a non-zero counter reports only unsolvable systems, and otherwise keeps exactly the same solutions |
| Factory.PivotsMeaning | 2025/day-10/index.ts:385-400 | the pivots exist exactly when every row gives an exact non-negative quotient, and each is that row's quotient |
| Factory.PivotValueMeaning | 2025/day-10/index.ts:391-396 | a pivot value exists only for a non-zero diagonal, and diagonal × pivot is the counter less the free contribution |
| Factory.EvaluationSolves | 2025/day-10/index.ts:381-403 | in a reduced system a valid evaluation is sound: the pivots followed by the free parameters are a non-negative solution whose presses add up to the evaluation |
| Factory.SolutionIsEvaluated | 2025/day-10/index.ts:381-403 | conversely every non-negative solution of a reduced system with a non-zero diagonal is found by evaluating its free part, with its own press total |
| Factory.FreeContribution | 2025/day-10/index.ts:386-389 | the loop sums the free parameters times the row's free columns |
| Factory.FreeBounds | 2025/day-10/index.ts:325 | the free bounds are the bounds from position numRows on |
| Factory.RunningMinimumIsLeast | 2025/day-10/index.ts:327-332 | the running minimum is None exactly when no evaluation is present, else a present evaluation no other undercuts |
| Factory.LeastOverBounds | 2025/day-10/index.ts:322-335 | a least value over an enumeration of every vector within the free bounds is the system's least evaluation |
| Factory.ButtonBound | 2025/day-10/index.ts:134 | the bound is the target of one of the button's counters and at most every one of them |
| Factory.ButtonMatrix | 2025/day-10/index.ts:129-138 | one row per counter with one entry per button |
| Factory.PressesWithinBound | 2025/day-10/index.ts:110-115 | in any non-negative way of reaching the targets exactly, each button is pressed at most its bound times, so the search loses no solution |
| Factory.EquationSystem.constructor | 2025/day-10/index.ts:126-139 | the coefficients mark the counters each button raises, the counters are the targets, and each bound is the least target among the button's counters |
| Factory.AddColumn | 2025/day-10/index.ts:135-137 | every equation gains one coefficient for the new button: 1 when the button raises that counter, else 0 |
| Factory.EquationSystem.SwapRows | 2025/day-10/index.ts:249-253 | the two equations and their counters trade places; the bounds stay |
| Factory.EquationSystem.SwapCols | 2025/day-10/index.ts:265-271 | the two columns trade places in every equation together with their bounds; the counters stay |
| Factory.EquationSystem.EliminateElement | 2025/day-10/index.ts:287-303 | the matrix and counters become those `Eliminate` gives (a change that keeps the solutions, by EliminateKeepsSolutions); the bounds stay |
| Factory.EquationSystem.RemoveZeroRows | 2025/day-10/index.ts:217-226 | the equations with a non-zero coefficient and their counters are kept, in order; the bounds stay |
| Factory.EquationSystem.EvaluateSolution | 2025/day-10/index.ts:381-403 | the result is the system's evaluation of the free parameters: their sum plus every pivot, or None when one is not a non-negative integer |
| Factory.EquationSystem.SolveMinimizingSum | 2025/day-10/index.ts:322-335 | the result is the least evaluation over every choice of free parameters within their bounds, None when none evaluates |
| HandheldHalting.Swapped | 2020/javascript/day-08/utils.js:9-16 | the trial program has the same length and line i is still a nop or jmp |
| HandheldHalting.SwappedDiffersOnce | 2020/javascript/day-08/utils.js:14-16 | a trial differs from the boot code exactly at line i, keeps its argument, and swapping again gives the boot code back |
| HandheldHalting.FixIncorrectInstruction | 2020/javascript/day-08/utils.js:8-25 | the loop returns the answer of the trials in line order: the first terminating trial's accumulator, −1 when none terminates, None when a trial makes `cpu` throw |
| HandheldHalting.FirstTerminatingTrial | 2020/javascript/day-08/utils.js:11-21 | when trial k terminates and every earlier trial loops, the answer is trial k's accumulator |
| HandheldHalting.NoTerminatingTrial | 2020/javascript/day-08/utils.js:11-24 | when every trial loops, the answer is −1 |
| HandheldHalting.AnswerIsFirstTerminatingTrial | 2020/javascript/day-08/utils.js:11-21 | any answer other than −1 is the accumulator of a terminating trial that every earlier trial precedes by looping |
| AdapterArray.NextStep | 2020/javascript/day-10/utils.js:13-19 | the step is the smallest difference 1..3 whose adapter exists, or 0 when none within 3 jolts does |
| AdapterArray.Walk | 2020/javascript/day-10/utils.js:9-20 | the walk stays on the socket or an adapter, counts at most one step per round plus the device step, and its weighted counts add up to the joltage reached plus 3 |
| AdapterArray.NearestStep | 2020/javascript/day-10/utils.js:13-19 | the inner loop finds the greedy step |
| AdapterArray.FindJoltDiffs | 2020/javascript/day-10/utils.js:6-22 | the counts are those of as many greedy rounds as adapters, with the device step counted from the start |
| AdapterArray.NearestIs | 2020/javascript/day-10/utils.js:13-19 | the greedy step is g when adapter current + g exists and none nearer does |
| AdapterArray.ChainStep | 2020/javascript/day-10/utils.js:13-19 | on a sorted chain the greedy step from each joltage leads to the next one |
| AdapterArray.WalkFollowsChain | 2020/javascript/day-10/utils.js:6-22 | when the adapters form a chain, the greedy walk visits them in order and counts exactly the chain's steps, so the answer is the chain's step counts |
| AdapterArray.DeviceJoltage | 2020/javascript/day-10/utils.js:69-76 | the device joltage is 3 above the largest adapter, and 3 without adapters |
| AdapterArray.ArrayCombinations | 2020/javascript/day-10/utils.js:68-88 | the table's entry at the device is the number of routes from the socket, counting 0 for joltages with no adapter |
| AdapterArray.Leaves | 2020/javascript/day-10/utils.js:43-55 | every joltage has at least one leaf below it (itself when it has no children) |
| AdapterArray.Children | 2020/javascript/day-10/utils.js:44-47 | the children are tree joltages 1 to 3 above, in order |
| AdapterArray.ChildrenLeaves | 2020/javascript/day-10/utils.js:44-52 | the children's leaves are the sum over the three differences |
| AdapterArray.VisitChild | 2020/javascript/day-10/utils.js:49-51 | a visited child adds its final leaves to v's entry, whether it was mapped or explored now, and entries below v stay |
| AdapterArray.RecurseTree | 2020/javascript/day-10/utils.js:43-55 | the call returns v's leaves and leaves v mapped with them, other mapped entries holding their final leaves |
| AdapterArray.VisitChildren | 2020/javascript/day-10/utils.js:48-52 | the loop adds the leaves of every child to v's entry |
| AdapterArray.TreeBelowDevice | 2020/javascript/day-10/utils.js:34-37 | every tree joltage is at most 3 below the device |
| AdapterArray.TreeCombinations | 2020/javascript/day-10/utils.js:31-59 | the result is the number of leaves below the socket |
| AdapterArray.ForwardIsBackward | 2020/javascript/day-10/utils.js:43-87 | chains counted from the bottom (as the tree does) and from the top (as the table does) are the same number |
| AdapterArray.LeavesAreChains | 2020/javascript/day-10/utils.js:43-55 | when only the top has no child, the leaves below v are the chains from v to the top |
| AdapterArray.WaysAreChains | 2020/javascript/day-10/utils.js:77-86 | below the device a route count is the number of chains from the socket |
| AdapterArray.TreeCountIsArrayCount | 2020/javascript/day-10/utils.js:31-88 | when every adapter below the best one has a successor within 3 jolts, the tree and the table count the same arrangements |
| AdapterArray.DisconnectedDiffers | 2020/javascript/day-10/utils.js:31-88 | otherwise they can differ: with a lone adapter 5 the tree counts 1 leaf and the table 0 routes |
| RambunctiousRecitation.ElfGame | 2020/javascript/day-15/utils.js:7-18 | the loop over one map returns the number computed in turn endTurn − 1, and undefined (None) when the loop never runs |
| RambunctiousRecitation.MemoryIsLatest | 2020/javascript/day-15/utils.js:12-16 | after t turns the map holds exactly the numbers said so far, each at the latest turn it was said |
| RambunctiousRecitation.AgeMeaning | 2020/javascript/day-15/utils.js:13-14 | a turn computes 0 exactly when its number is new, otherwise the d > 0 with the number said d turns earlier and in no turn since |
| RambunctiousRecitation.ElfGameBelowEndTurn | 2020/javascript/day-15/utils.js:12-17 | the answer is defined exactly when endTurn ≥ 2, and is then between 0 and endTurn − 2 |
| RambunctiousRecitation.ElfGameSaysTurn | 2020/javascript/day-15/utils.js:12-17 | once the starting numbers are used up, the answer is the number said at turn endTurn |
| RambunctiousRecitation.ExampleOpening | 2020/javascript/day-15/utils.js:12-16 | after six turns of 0, 3, 6 the map holds 0 at 4, 3 at 6 and 6 at 3, and the number computed is 1 |
| RambunctiousRecitation.ExampleGame | 2020/javascript/day-15/utils.js:7-18 | 0, 3, 6 to turn 10 gives 0 |
| RambunctiousRecitation.ShortGameAnswer | 2020/javascript/day-15/utils.js:12-17 | with fewer turns than starting numbers the answer is not the starting number of that turn: [1, 2, 3] to turn 2 gives 0 |
| TicketTranslation.IsInLimits | 2020/javascript/day-16/utils.js:38-43 | true exactly when some pair (limits[2k], limits[2k + 1]) contains the number inclusively; a trailing lower bound contains nothing |
| TicketTranslation.FindInvalidNumber | 2020/javascript/day-16/utils.js:50-51 | None (undefined) exactly when every value fits some field; otherwise the first value that fits none |
| TicketTranslation.ErrorRateAllAppend | 2020/javascript/day-16/utils.js:53-57 | the documented error rate of a batch is the sum over its parts |
| TicketTranslation.SingleInvalidAgrees | 2020/javascript/day-16/utils.js:62-65 | a ticket with at most one invalid value adds the same to the error rate as written and as documented |
| TicketTranslation.AllValidAddsNothing | 2020/javascript/day-16/utils.js:62-65 | a ticket whose values all fit adds nothing |
| TicketTranslation.ErrorRatesAgree | 2020/javascript/day-16/utils.js:58-66 | when no ticket holds two invalid values, the fold as written gives the sum of all invalid values |
| TicketTranslation.ErrorRateCountsFirstOnly | 2020/javascript/day-16/utils.js:53-66 | a ticket with invalid values 30 and 40 adds 30 as written, where the documented sum is 70 |
| TicketTranslation.InvalidZeroAddsNothing | 2020/javascript/day-16/utils.js:63 | an invalid 0 is found, yet adds the same 0 as a valid ticket |
| TicketTranslation.ValidTickets | 2020/javascript/day-16/utils.js:80-82 | exactly the tickets with no invalid value are kept |
| TicketTranslation.Candidates | 2020/javascript/day-16/utils.js:87-93 | a column has at most one candidate per field |
| TicketTranslation.CandidatesMeaning | 2020/javascript/day-16/utils.js:87-93 | a name is a candidate exactly when a field of that name allows the column's value on every valid ticket |
| TicketTranslation.Columns | 2020/javascript/day-16/utils.js:84-95 | one entry per column, in order, each with its candidates |
| TicketTranslation.InsertByCount | 2020/javascript/day-16/utils.js:96 | inserting keeps the list ordered by candidate count, ties by column, and adds exactly that entry |
| TicketTranslation.SortByCount | 2020/javascript/day-16/utils.js:96 | the sorted list is a permutation of the columns ordered by candidate count, ties keeping column order as a stable sort does |
| TicketTranslation.PossibleMatches | 2020/javascript/day-16/utils.js:78-97 | None (a throw on `tickets[0]`) exactly when no ticket is valid; otherwise one entry per column of the first valid ticket, sorted by candidate count |
| TicketTranslation.SortedEntry | 2020/javascript/day-16/utils.js:84-96 | every sorted entry is a column of the first valid ticket with its own candidates |
| TicketTranslation.ColumnSorted | 2020/javascript/day-16/utils.js:84-96 | every column of the first valid ticket has a sorted entry |
| TicketTranslation.PossibleMatchesMeaning | 2020/javascript/day-16/utils.js:78-97 | the sorted matches hold each column once, and a name is listed for it exactly when it fits that column on every valid ticket |
| TicketTranslation.InvalidTicketIgnored | 2020/javascript/day-16/utils.js:80-82 | adding an invalid ticket anywhere leaves the possible matches unchanged |
| TicketTranslation.ValidTicketsSkip | 2020/javascript/day-16/utils.js:80-82 | the filter drops an invalid ticket wherever it stands |
| TicketTranslation.FirstUnassigned | 2020/javascript/day-16/utils.js:112-114 | None (undefined) exactly when every candidate is taken; otherwise the first candidate no earlier column holds |
| TicketTranslation.Decode | 2020/javascript/day-16/utils.js:106-117 | one assignment per match, for the same column, in the same order |
| TicketTranslation.DecodeMeaning | 2020/javascript/day-16/utils.js:105-117 | every decoded field is a candidate of its column that was free when the column came up, a column stays undecoded only when all its candidates were taken, and no field is decoded twice |
| TicketTranslation.DecodeFields | 2020/javascript/day-16/utils.js:105-117 | defined exactly when the possible matches are, with one assignment per match |
| CrabCombat.Deck.constructor | 2020/javascript/day-22/utils.js:62 | the deck holds exactly the given cards |
| CrabCombat.Deck.Shift | 2020/javascript/day-22/utils.js:9 | the top card is returned and removed, the rest kept in order |
| CrabCombat.Deck.Push | 2020/javascript/day-22/utils.js:10-11 | the two cards are added at the bottom, the first one first |
| CrabCombat.AwardConserves | 2020/javascript/day-22/utils.js:9-11 | a round keeps every card: the two drawn cards go back into one deck |
| CrabCombat.Combat | 2020/javascript/day-22/utils.js:7-14 | the decks end as the rounds leave them and the non-empty one is returned, or None when the round bound runs out |
| CrabCombat.CombatEnds | 2020/javascript/day-22/utils.js:8-13 | a finished game leaves one deck empty and every card in the other |
| CrabCombat.LoopStep | 2020/javascript/day-22/utils.js:8-12 | one round leads from each arrangement of the cycle from 43, 19 against 2, 29, 14 to the next |
| CrabCombat.LoopForever | 2020/javascript/day-22/utils.js:8-12 | from any arrangement of that cycle no round bound is enough |
| CrabCombat.PlainCombatLoops | 2020/javascript/day-22/utils.js:7-14 | plain Combat on 43, 19 against 2, 29, 14 never ends, so `combat` does not return |
| CrabCombat.SliceTo | 2020/javascript/day-22/utils.js:43 | the slice is a prefix, of length n when n is within the deck |
| CrabCombat.PlayGame | 2020/javascript/day-22/utils.js:29-50 | the decks end as the game leaves them and the result says whether player 1 won, None when the round bound runs out |
| CrabCombat.RecursiveCombat | 2020/javascript/day-22/utils.js:22-52 | the starting deck of the game's winner is returned, both decks as the game left them |
| CrabCombat.GameEnds | 2020/javascript/day-22/utils.js:31-49 | a finished recursive game keeps every card, and player 1 wins exactly when they still hold cards, in particular whenever an arrangement repeats |
| CrabCombat.NotSeenYet | 2020/javascript/day-22/utils.js:33-35 | the arrangements of the cycle are all different, so none is seen before its own round |
| CrabCombat.LoopRoundsHaveNoSubGame | 2020/javascript/day-22/utils.js:42-44 | in every arrangement of the cycle the higher card decides, without a sub-game |
| CrabCombat.RecursiveLoopStep | 2020/javascript/day-22/utils.js:31-48 | each round of the cycle is the same in the recursive game, which records the arrangement as seen |
| CrabCombat.RecursiveGameStopsRepeat | 2020/javascript/day-22/utils.js:32-35 | the decks on which plain Combat loops end the recursive game after six rounds, in player 1's favour |
| CrabCombat.CycleClosed | 2020/javascript/day-22/utils.js:33-34 | once the starting arrangement is seen, player 1 wins at once |
| CrabCombat.CycleFrom | 2020/javascript/day-22/utils.js:31-48 | from any arrangement of the cycle with the earlier ones seen, the game ends when the cycle closes |
| CrabCombat.ScoreAppend | 2020/javascript/day-22/utils.js:66-69 | a card put at the bottom raises the weight of every card above it by one |
| CrabCombat.ScoreExample | 2020/javascript/day-22/utils.js:66-69 | the puzzle's winning deck scores 306 |
| CrabCombat.FindWinnerScore | 2020/javascript/day-22/utils.js:60-70 | the score of the winning deck of a game played on copies, the caller's decks outside the frame and unchanged |
| CrabCombat.CombatScoreOfAllCards | 2020/javascript/day-22/utils.js:60-69 | a finished plain game scores a deck holding every card of both players |
| LobbyLayout.TokensName | 2020/javascript/day-24/utils.js:29 | the first token of a written direction is that direction, whatever follows |
| LobbyLayout.TokensRender | 2020/javascript/day-24/utils.js:29 | reading written directions gives the directions back |
| LobbyLayout.StepInverse | 2020/javascript/day-24/utils.js:20-27 | e/w, ne/sw and nw/se undo each other |
| LobbyLayout.WalkIsDisplacement | 2020/javascript/day-24/utils.js:28-30 | the walk from the reference tile ends at the sum of the step offsets, so the order of the steps does not matter |
| LobbyLayout.WalkBack | 2020/javascript/day-24/utils.js:20-30 | directions followed by their opposites in reverse order lead back to the start |
| LobbyLayout.ToggleTwice | 2020/javascript/day-24/utils.js:43-44 | flipping the same tile twice leaves every tile as it was |
| LobbyLayout.GetBlackTiles | 2020/javascript/day-24/utils.js:38-55 | the loop over one set gives the fold's black tiles and largest coordinate, None when some line has no direction and `getCoords` throws |
| LobbyLayout.FlipsFails | 2020/javascript/day-24/utils.js:38-55 | once one line throws, the whole list throws |
| LobbyLayout.FlipsMeaning | 2020/javascript/day-24/utils.js:38-55 | a tile ends black exactly when an odd number of lines lead to it, and every black tile lies within maxCoord on both axes |
| LobbyLayout.CountBlack | 2020/javascript/day-24/utils.js:78-80 | at most one count per tile looked at |
| LobbyLayout.CountBlackNeighbours | 2020/javascript/day-24/utils.js:70-81 | a tile has at most six black neighbours |
| LobbyLayout.CountBlackDistinct | 2020/javascript/day-24/utils.js:78-80 | counting over distinct tiles counts the black tiles among them |
| LobbyLayout.NeighboursAreSteps | 2020/javascript/day-24/utils.js:70-81 | the neighbour count is the number of black tiles one step away in the six directions |
| LobbyLayout.ColumnMeaning | 2020/javascript/day-24/utils.js:94-103 | a row of the window holds exactly the tiles of that row the rule makes black |
| LobbyLayout.SquareMeaning | 2020/javascript/day-24/utils.js:93-104 | the window holds exactly the tiles in it the rule makes black |
| LobbyLayout.NextDay | 2020/javascript/day-24/utils.js:92-104 | one day's loops build the set of window tiles the rule makes black |
| LobbyLayout.FarTileStaysWhite | 2020/javascript/day-24/utils.js:93-102 | a tile more than one step beyond every black tile has no black neighbour and stays white |
| LobbyLayout.DayComplete | 2020/javascript/day-24/utils.js:91-106 | when the black tiles lie within r, a window of radius r + 1 misses nothing: a tile is black next day exactly when the rule says so, within r + 1 |
| LobbyLayout.EvolveWithin | 2020/javascript/day-24/utils.js:91-106 | after d days the black tiles lie within maxCoord + d |
| LobbyLayout.EvolveFollowsRule | 2020/javascript/day-24/utils.js:91-106 | every day applies the rule to every tile of the unbounded floor, although each looks at a finite window |
| LobbyLayout.PassDays | 2020/javascript/day-24/utils.js:91-106 | the days loop gives the black tiles after that many days, none when days < 1 |
| LobbyLayout.CountDailyTiles | 2020/javascript/day-24/utils.js:89-108 | the number of black tiles after the days, None when `getBlackTiles` throws |
| GlobalUtils.UnspentUpdate | javascript/global-utils/index.js:18-22 | one more run of an instruction below its limit spends exactly one allowed run |
| GlobalUtils.UnspentOfZeros | javascript/global-utils/index.js:14 | before the first step every instruction has all maxLoop runs left |
| GlobalUtils.StepOnce | javascript/global-utils/index.js:17-23 | one pass counts the run of instruction i, executes it, and leaves the run's outcome unchanged with one allowed run fewer |
| GlobalUtils.Cpu | javascript/global-utils/index.js:8-27 | the loop gives the console's outcome from the first instruction, accumulator from mem; it runs at most maxLoop × the program's length instructions |
| GlobalUtils.StraightLine | javascript/global-utils/index.js:10-26 | a program without jumps runs to the end, adding every acc argument once |
| GlobalUtils.SelfJump | javascript/global-utils/index.js:11-21 | a `jmp +0` reruns until its limit, so the program does not terminate |
| GlobalUtils.PairScan | javascript/global-utils/index.js:50-52 | the n = 2 answer is empty or two numbers adding up to the target |
| GlobalUtils.FoundSumsToTarget | javascript/global-utils/index.js:37-58 | a non-empty answer has n numbers adding up to the target |
| GlobalUtils.TriedSumsToTarget | javascript/global-utils/index.js:40-48 | a non-empty answer of the n > 2 loop has n numbers adding up to the target |
| GlobalUtils.PairScanMeaning | javascript/global-utils/index.js:40-57 | the n = 2 scan answers [a[j], a[i]] for the first j with an earlier non-zero a[i] completing the target, and [] exactly when there is none |
| GlobalUtils.StoredMapAppend | javascript/global-utils/index.js:52 | storing e maps e to itself |
| GlobalUtils.StoredMapMeaning | javascript/global-utils/index.js:51-52 | a complement is found exactly when a non-zero number equal to it was stored |
| GlobalUtils.ZeroIsNeverFound | javascript/global-utils/index.js:51-52 | the scan misses 0 + 5 = 5, because the stored 0 reads as false |
| GlobalUtils.FindSum | javascript/global-utils/index.js:37-58 | the loop and its recursion give the answer of the n-number search |
| BinaryBoarding.SeatID | javascript/day-05/utils.js:6-22 | the loop gives 8 × the row's lower bound + the column's lower bound after every letter, None when a letter has no rule |
| BinaryBoarding.RangesFail | javascript/day-05/utils.js:17-19 | a letter without a rule makes the whole pass throw |
| BinaryBoarding.Bin | javascript/day-05/utils.js:8-11 | k halves read in binary give a number below 2^k |
| BinaryBoarding.RangesDefined | javascript/day-05/utils.js:7-19 | a pass has ranges exactly when every letter is F, B, L or R |
| BinaryBoarding.RangesSplit | javascript/day-05/utils.js:8-19 | row letters narrow only the rows and column letters only the columns, in any interleaving |
| BinaryBoarding.NarrowMeaning | javascript/day-05/utils.js:8-11 | halving a range of 2^m seats k ≤ m times keeps the block of 2^(m−k) seats the halves name in binary |
| BinaryBoarding.SeatIDIsBinary | javascript/day-05/utils.js:6-22 | seven row letters and three column letters in any order name seat 8 × row + column, row and column read in binary with B and R as 1 |
| BinaryBoarding.BinAppend | javascript/day-05/utils.js:8-11 | the binary value of a concatenation is the first part shifted plus the second |
| BinaryBoarding.CanonicalPassIsBinary | javascript/day-05/utils.js:6-22 | seven F/B letters followed by three L/R letters: the seat ID is the whole pass read in binary |
| BinaryBoarding.ExamplePass | javascript/day-05/utils.js:6-22 | FBFBBFFRLR is seat 357 |
| BinaryBoarding.SeatIDs | javascript/day-05/utils.js:43 | one ID per pass, each that pass's seat ID, None when a pass throws |
| BinaryBoarding.MaxOfMeaning | javascript/day-05/utils.js:30-33 | the fold from 0 gives at least 0 and every ID, and is 0 or one of the IDs |
| BinaryBoarding.MaxSeatIDMeaning | javascript/day-05/utils.js:29-33 | `maxSeatID` is the largest ID, or 0 when there is none or all are negative |
| BinaryBoarding.InsertPermutes | javascript/day-05/utils.js:44 | inserting adds x once and keeps every other ID |
| BinaryBoarding.InsertSorted | javascript/day-05/utils.js:44 | inserting into ascending IDs keeps them ascending |
| BinaryBoarding.SortSorted | javascript/day-05/utils.js:44 | the numeric sort yields an ascending permutation of the IDs |
| BinaryBoarding.FirstGap | javascript/day-05/utils.js:45 | `find` stops at the first sorted ID whose successor is not one more, or at the last one |
| BinaryBoarding.GapMeaning | javascript/day-05/utils.js:45 | in strictly ascending whole numbers, one past the first gap is missing, the number before it present, and every number from the first up to it present |
| BinaryBoarding.MySeatMeaning | javascript/day-05/utils.js:41-46 | for distinct whole-numbered IDs the answer is missing, the seat before it is present, and so is every whole number from any ID up to it |
| BinaryBoarding.SortedDistinct | javascript/day-05/utils.js:44 | distinct whole-numbered IDs sort into strictly ascending whole numbers with the same elements, the smallest first |
| BinaryBoarding.FindMySeatIDMeaning | javascript/day-05/utils.js:40-47 | on passes with distinct whole-numbered IDs `findMySeatID` answers a seat that no pass holds |
| BinaryBoarding.ContiguousRun | javascript/day-05/utils.js:45 | before the first gap the sorted IDs count up by one from the smallest |
| EncodingError.HasPairMeaning | javascript/day-9/utils.js:10 | a number has a pair exactly when two numbers at distinct positions of the window before it add up to it, the earlier one non-zero |
| EncodingError.WindowPairs | javascript/day-9/utils.js:10 | the pair scan of the window from an empty dict finds a pair exactly when the window holds one |
| EncodingError.FindInvalidNumber | javascript/day-9/utils.js:8-15 | None (null) exactly when every number after the preamble has a pair; otherwise the first number that has none |
| EncodingError.RunSumShorter | javascript/day-9/utils.js:29-31 | with positive numbers a run is larger than any run it strictly contains at its end, so shrinking from the front lowers the sum |
| EncodingError.PositiveRuns | javascript/day-9/utils.js:29-31 | with positive numbers every non-empty run has a positive sum |
| EncodingError.SeqMin | javascript/day-9/utils.js:33 | the minimum is one of the numbers and no larger than any |
| EncodingError.SeqMax | javascript/day-9/utils.js:33 | the maximum is one of the numbers and no smaller than any |
| EncodingError.FindEncryptionWeakness | javascript/day-9/utils.js:23-36 | any answer is the smallest plus the largest number of a non-empty run adding up to the target; with positive numbers that run is one ending earliest (no run adding up to the target ends before it), and an answer is found whenever such a run exists |
| EncodingError.ExampleWeakness | javascript/day-9/utils.js:23-36 | the example run 15, 25, 47, 40 adds up to 127 and gives 15 + 47 |
| EncodingError.DocumentedProductDiffers | javascript/day-9/utils.js:21-33 | on the example run the product the doc comment names (15 × 47 = 705) differs from the sum the code returns (15 + 47 = 62) |
| ShuttleSearch.WaitMeaning | javascript/day-13/utils.js:18 | the wait is the first positive delay after which the bus leaves, between 1 and the bus id, so a bus leaving exactly at ts waits a full cycle |
| ShuttleSearch.NoBusMeaning | javascript/day-13/utils.js:12-22 | the wait stays Infinity exactly when no entry is a bus with a positive id |
| ShuttleSearch.FindNextBusMeaning | javascript/day-13/utils.js:16-22 | the bus chosen is the first entry with the smallest wait |
| ShuttleSearch.ExampleNextBus | javascript/day-13/utils.js:12-22 | the example schedule at 939 gives bus 59 in 5 minutes |
| ShuttleSearch.Offsets | javascript/day-13/utils.js:30-35 | at most one bus per schedule entry |
| ShuttleSearch.AlignBus | javascript/day-13/utils.js:38 | the loop stops at the first step k with bus n leaving at t + k·increment + i; None when bus 0 or no step within the bound aligns |
| ShuttleSearch.FindSubsequentTime | javascript/day-13/utils.js:29-42 | None on an empty schedule; with a positive first id the time found is positive, a multiple of the first bus's id, and fits every later bus at its position (the first bus's own position is never used: for "x,7" the answer is 7), with pairwise coprime ids it is the least such time, and it is always found when the step bound exceeds every id; with a first id of 0 the result is 0 exactly when every later position is a multiple of its id, and otherwise None, a loop that never ends |
| ShuttleSearch.SieveStep | javascript/day-13/utils.js:37-41 | each bus keeps the reduce's invariants: the time fits the buses so far, the increment is their id product, and with coprime ids the time is the least one |
| ShuttleSearch.ExampleOffsets | javascript/day-13/utils.js:30-35 | 17,x,13,19 gives buses 17 at 0, 13 at 2 and 19 at 3 |
| ShuttleSearch.ExampleSubsequentTime | javascript/day-13/utils.js:29-42 | 3417 fits 17,x,13,19, whose ids are coprime |
| ShuttleSearch.StepLeast | javascript/day-13/utils.js:38-39 | with coprime ids the first aligned step gives the least positive time fitting one more bus, unique up to the new increment |
| ShuttleSearch.AlignmentExists | javascript/day-13/utils.js:38 | when the increment and the bus id are coprime, some step below the id aligns, so the loop ends |
| ShuttleSearch.Bezout | javascript/day-13/utils.js:38-39 | the greatest common divisor of two ids is an integer combination of them |
| ShuttleSearch.CoprimeProduct | javascript/day-13/utils.js:39 | a product of numbers coprime to n is coprime to n, so the growing increment stays coprime to the later ids |
| DockingData.PaddedIsBits | javascript/day-14/utils.js:9 | for a value that fits, the padded binary string is its low bits |
| DockingData.BitsValue | javascript/day-14/utils.js:9-12 | `parseInt(_, 2)` of the low w bits gives the value modulo 2^w |
| DockingData.ValueBits | javascript/day-14/utils.js:12 | the low bits of `parseInt(s, 2)` give the binary string back |
| DockingData.MaskValue | javascript/day-14/utils.js:8-13 | the loop builds the masked string and parses it |
| DockingData.MaskValueMeaning | javascript/day-14/utils.js:8-13 | for a 36-bit value the result is a 36-bit value with the value's bits where the mask has 'X' and the mask's bits elsewhere |
| DockingData.MaskIdempotent | javascript/day-14/utils.js:8-13 | masking twice with the same mask is masking once |
| DockingData.MaskAllFloating | javascript/day-14/utils.js:8-13 | a mask of only 'X' leaves a 36-bit value as it is |
| DockingData.Expand | javascript/day-14/utils.js:26-30 | an 'X' doubles the addresses, a '0' or '1' keeps their number |
| DockingData.ExpandMembers | javascript/day-14/utils.js:26-30 | the new strings are exactly the old ones with an allowed digit appended |
| DockingData.DecodeMemoryAddresses | javascript/day-14/utils.js:21-33 | the loop gives one parsed address per decoded string |
| DockingData.DecodeCount | javascript/day-14/utils.js:25-31 | decoding gives 2^(number of 'X') address strings |
| DockingData.DecodeMembers | javascript/day-14/utils.js:25-31 | the decoded strings are exactly those that keep every '1', copy the source at every '0' and take either digit at every 'X' |
| DockingData.DecodeDistinct | javascript/day-14/utils.js:25-31 | no address string is decoded twice |
| DockingData.BinaryValueInjective | javascript/day-14/utils.js:32 | `parseInt(_, 2)` tells binary strings of one length apart |
| DockingData.DecodedAddressesDistinct | javascript/day-14/utils.js:21-33 | the decoded addresses are 2^(number of 'X') distinct numbers |
| DockingData.StoreAll | javascript/day-14/utils.js:46-49 | the stores keep the mask |
| DockingData.Execute | javascript/day-14/utils.js:58-68 | after a well-formed program the mask is a valid mask |
| DockingData.SumMemory | javascript/day-14/utils.js:41-70 | the loop over the lines gives the running sum of the reduce |
| DockingData.StoreEach | javascript/day-14/utils.js:46-49 | the `forEach` stores the value at every decoded address, moving the sum by each difference |
| DockingData.TotalStore | javascript/day-14/utils.js:47-48 | overwriting an address changes the memory total by the new value less the old one |
| DockingData.StoreAllKeepsTotal | javascript/day-14/utils.js:46-49 | storing keeps the running sum equal to the memory total |
| DockingData.SumIsTotal | javascript/day-14/utils.js:41-70 | the returned sum is the total of the values in memory, across overwrites |
| DockingData.StoreAllMemory | javascript/day-14/utils.js:46-49 | every decoded address holds the value afterwards and every other address is untouched |
| CrabCups.DestinationValid | javascript/day-23/utils.js:86-89 | the destination search ends after at most three skips on a label in 1..count that is not one of the lifted three |
| CrabCups.DestinationMeaning | javascript/day-23/utils.js:86-89 | the destination is the first label stepping down from the current one, wrapping from 1 to cupCount, that is not lifted |
| CrabCups.DestinationOf | javascript/day-23/utils.js:86-89 | the destination of a move is a cup of the circle other than the three lifted ones |
| CrabCups.SplicePos | javascript/day-23/utils.js:92-96 | the position after which the lifted cups go back holds the destination cup |
| CrabCups.SpliceIsRing | javascript/day-23/utils.js:92-96 | putting the lifted cups back after the destination keeps every label 1..count exactly once |
| CrabCups.MoveRing | javascript/day-23/utils.js:73-100 | one move turns a circle of the labels 1..count into another circle of the same labels |
| CrabCups.MoveMeaning | javascript/day-23/utils.js:75-99 | after a move the lifted cups follow the destination in their old order, the cup that followed the destination follows the third lifted cup, the cup after the third lifted cup follows the current cup, every other cup keeps its clockwise neighbour, and the old current cup is last from the new current cup |
| CrabCups.MoveState | javascript/day-23/utils.js:82-96 | the four pointer updates of lifting and reinserting link exactly the circle that MoveRing describes, and the next current cup is the one now right of the current cup |
| CrabCups.Rounds | javascript/day-23/utils.js:73-100 | any number of moves keeps a circle of the labels 1..count |
| CrabCups.InitialRing | javascript/day-23/utils.js:39-59 | the circle getCups builds has cupCount cups |
| CrabCups.InitialIsRing | javascript/day-23/utils.js:39-59 | the input labels followed by len+1..cupCount hold every label 1..cupCount exactly once |
| CrabCups.AfterOneMeaning | javascript/day-23/utils.js:112-121 | the labels read after cup 1 are the other count-1 labels, the first clockwise of cup 1 and each clockwise of the one before |
| CrabCups.FindDestination | javascript/day-23/utils.js:86-89 | the loop of the destination search returns the destination the specification function defines |
| CrabCups.CupCircle.constructor | javascript/day-23/utils.js:39-59 | getCups links the input labels and then len+1..cupCount into one circle, left and right pointers agreeing, the first input label current |
| CrabCups.CupCircle.Unhook | javascript/day-23/utils.js:82-83 | lifting repoints the current cup past the third lifted cup and that cup back to the current cup, and changes no other pointer |
| CrabCups.CupCircle.Reinsert | javascript/day-23/utils.js:92-96 | reinsertion links the third lifted cup to the destination's old right neighbour and the destination to the first lifted cup, both directions, and changes no other pointer |
| CrabCups.CupCircle.Move | javascript/day-23/utils.js:73-100 | one move of the linked cups keeps it a valid circle equal to MoveRing of the old circle |
| CrabCups.CupCircle.Play | javascript/day-23/utils.js:68-103 | maxMoves moves leave the linked cups a valid circle equal to Rounds of the old one |
| CrabCups.CupCircle.LabelsAfterOne | javascript/day-23/utils.js:114-119 | the walk from the cup right of cup 1 collects exactly the labels after cup 1 |
| CrabCups.WalkFromOne | javascript/day-23/utils.js:114-119 | walking the right pointers from cup 1 until it comes round again yields the circle read from cup 1 without cup 1 |
| CrabCups.FindCupLabels | javascript/day-23/utils.js:112-121 | the labels returned are those after cup 1 in the circle reached by maxMoves moves from the initial circle |
| ComboBreaker.Transform | javascript/day-25/utils.js:18-22 | transform returns subject^loop mod 20201227, below the modulus, and 1 for a loop of 0 |
| ComboBreaker.FindLoop | javascript/day-25/utils.js:6-10 | findLoop returns the least loop size n with 7^n mod 20201227 equal to the public key |
| ComboBreaker.FindEncryptionKey | javascript/day-25/utils.js:30-33 | the key is the card's public key raised to the door's least loop size mod 20201227 |
| ComboBreaker.Handshake | javascript/day-25/utils.js:30-33 | transforming the card key by the door's loop size and the door key by the card's agree, both 7^(c·d) mod 20201227 |
| ComboBreaker.PowModBase | javascript/day-25/utils.js:20 | reducing the subject mod 20201227 first does not change the transform |
| ComboBreaker.PowPow | javascript/day-25/utils.js:30-33 | a public key raised to a loop size multiplies the exponents of 7 |
| TobogganTrajectory.JsRem | javascript/day-3/tree-counter.js:13 | JavaScript's remainder lies strictly between -m and m and agrees with the mathematical one on non-negative dividends |
| TobogganTrajectory.CountTrees | javascript/day-3/tree-counter.js:8-20 | countTrees counts the trees among the ceil(rows/dy) visits, at most one per visit, 0 on an empty map |
| TobogganTrajectory.VisitOnMap | javascript/day-3/tree-counter.js:10-14 | visit k is on the map exactly when k is below ceil(rows/dy), so the loop makes that many visits |
| TobogganTrajectory.TreesAmong | javascript/day-3/tree-counter.js:15-17 | at most one tree is counted per visit |
| TobogganTrajectory.TreesAmongCounts | javascript/day-3/tree-counter.js:15-17 | the count is the number of visits landing on '#' |
| TobogganTrajectory.ColumnClosedForm | javascript/day-3/tree-counter.js:13 | moving right on a map of positive width, visit k is at column k·dx mod width |
| TobogganTrajectory.ModAddLeft | javascript/day-3/tree-counter.js:13 | reducing the column before adding dx gives the same column as reducing after |

## Left out

- Reading input files and printing answers; every `main`, `readInput` and `console.log`.
- DiveGo.ParseInstruction, DiveGo.BasicSubmarine.Move, DiveGo.Submarine.Move: require a space in the instruction; the source indexes `instructionArray[1]` and panics on a line without one, which is not modelled.
- Dive.Submarine.Move: requires the value of a known direction to parse; NaN propagation into the fields is not modelled.
- BinaryDiagnostic.FindPowerConsumption: requires a gamma of at most 31 digits, because JavaScript's `^` truncates to 32 bits.
- Strings are sequences of characters; Go's byte indexing of non-ASCII strings is not modelled.
- Integer overflow of Go's `int` and of `strconv.Atoi` is not modelled (integers are unbounded).
- JavaScript and TypeScript numbers are modelled as unbounded integers throughout; the loss of precision of doubles above 2^53 is not modelled.
- Default arguments are explicit parameters that every caller passes: Dive.Submarine.constructor's `useAim` (default true), CathodeRayTube.DrawCRT's `spriteWidth` and `rowWidth` (3 and 40), CrabCombat.FindWinnerScore's `recursive` (false), LobbyLayout.CountDailyTiles's `days` (100), EncodingError.FindInvalidNumber's `n` (25), CrabCups.FindCupLabels's `cupCount` and `maxMoves` (9 and 100) and DockingData.SumMemory's `decoder` (false); calls that rely on the defaults are not modelled separately.
- GiantSquid.BingoBoard.constructor: requires rectangular boards; ragged rows are not modelled.
- Lanternfish.CountFish: requires every age to be in 0..8; an out-of-range age would grow the bucket array.
- DumboOctopus.Cavern.FindSyncStep: searches at most `limit` steps and returns None beyond; the source loops without bound and does not terminate on a cavern that never synchronises.
- DumboOctopus.Cavern.constructor: requires non-negative energy levels (the input's digits); the flash-count argument relies on it.
- ExtendedPolymerization.PolymerCounter.constructor: takes the rules already split into pair and insert character; splitting "XY -> C" on " -> " is not modelled, and an insert is a single character.
- ExtendedPolymerization.CountDifference: the ascending sort of the counts is represented by its result (the first element is the minimum, the last the maximum).
- Snailfish.Reduce: the tree is a value, not linked objects; parent pointers are represented only by whether a leaf is attached, and the recursion of `reduce` is bounded by a fuel argument (None when it runs out). Termination of the corrected reduction is not proved.
- Snailfish: `parseSnailfish` and `toString` are not modelled; trees are built directly.
- ReactorReboot.Reboot, ReactorReboot.InitializationReboot: require every cuboid to have min ≤ max on each axis; the source does not check this, and for an inverted range its volume formula would give a count that is not a number of cubes. `parseInstruction` (a regular expression) and `toString` are not modelled.
- SeaCucumberFinalState.FindFinalState: takes a step limit and returns None when it is reached, because the source loops for ever on a floor that never settles; the floor must be rectangular with at least one row, as the source's `map[0].length` assumes.
- Sea cucumber steps: the source mutates copied rows in place; the model copies by value (a row assigned into the floor), so aliasing between the copies is not modelled.
- Rock Paper Scissors, Rucksack, Camp Cleanup input parsing (`readInput`, `split`, `parsePair`): the models take the letters, strings and intervals already split.
- Rucksack.Chunk: requires a positive chunk size; the source loops for ever on 0 or a negative size.
- Rucksack part sums: the reduce over priorities is not modelled separately; an empty item's priority is NaN (FindPriority returns None).
- CampCleanup: the interval lemmas assume start <= end, as the puzzle input gives; the functions themselves take any bounds.
- SupplyStacks: crates are single letters, so the source's `if (crate)` test only skips a pop from an empty stack; an instruction naming a stack that does not exist throws in the source and is excluded by `Addresses`; the instruction parser and the hard-coded starting stacks are not modelled.
- SupplyStacks.Cargo: the stacks are a value-typed field, so sharing of the inner arrays with the caller (which the constructor's copy prevents) is not expressible.
- TreetopForest: the forest must be rectangular. On ragged rows the source compares against `undefined` in the up/down loops and takes the right-hand edge from row 0's width; that is not modelled. The lemmas characterise the left and right viewing distances; the up and down ones mirror them and are specified only by their scan functions.
- RopeBridge: `parseInstruction` and the input are not modelled; a move's direction is one of U, D, R, L and its distance a natural number. An unknown direction letter (which makes the source fail on destructuring `undefined`) and a NaN or negative distance (no steps) are left out. The visited dictionary keyed by `toString()` is a set of points; `numberVisitedByTail` is its size. The source stores the tail array itself as the dictionary value; only the keys are counted, so this aliasing does not matter and is not modelled.
- RopeBridge.Rope.UpdateSegmentPosition: an index at or past the rope's length (reading `undefined` in the source) is excluded by a precondition.
- CathodeRayTube: reading and splitting the instruction strings is not modelled; any command other than `addx` is a noop, and an `addx` argument that is not a number (NaN in the register) is left out. The sprite distance (spriteWidth − 1) / 2 is compared as 2 × distance ≤ spriteWidth − 1, which is the same for integer widths.
- CathodeRayTube.CPU.GetSignalStrengthSum: a frequency of 0 or less, where the source loops forever, is excluded by a precondition.
- CathodeRayTube.DrawCRT: a row width of 0 or less (NaN remainders in the source) is excluded by a precondition.
- MonkeyMiddle: the monkey definitions must be well formed (both throw targets name another existing monkey); the source reads `undefined` and throws on a target that does not exist, and a monkey throwing to itself never finishes `processItems` (2022/day-11/index.ts:100-111), because each thrown item is pushed back onto the queue being drained. `parseTest` (2022/day-11/index.ts:160-165) is not a separate member: its choice of target is the divisibility test inside Pack.ProcessItems. Parsing the monkey notes is not modelled, and worry levels are unbounded naturals (JavaScript numbers lose precision beyond 2^53 without the modulus).
- DistressSignal: packets are built directly; `JSON.parse` of the input lines is not modelled.
- Snafu: the digit strings are read as given; reading the input file is not modelled.
- CubeConundrum, Scratchcards, SeedMaps, CamelCards: the line parsers (splitting on `:`, `;`, `,` and spaces) are not modelled; the models take the games, cards, maps and hands already split.
- CamelCards.Winnings: takes the hands already sorted; the sort by `compareCards` that ranks them is not modelled, and beyond WinningsBounds nothing is proved about the ranking.
- CamelCards.Cards, CamelCards.NewHand: require every character of a hand to be one of the thirteen card labels; the source's lookup gives `undefined` for any other character.
- HotSprings: the input parse (splitting a row into its pattern and its group counts) is not modelled.
- PointOfIncidence.Transpose: requires a non-empty rectangular pattern, as the source's `rows[0].length` assumes.
- ReflectorDish: the platform must be rectangular with at least one row and column (`Shaped`); the source rotates and tilts nested arrays in place, and the model keeps the grid as a value-typed field, so aliasing between rows is not modelled. The cycle cache keyed by the joined grid string is a map keyed by the grid itself.
- LensLibrary.LensConfiguration.ProcessInstruction: requires the instruction to parse (letters followed by `-` or `=` and a digit); the source's regular expression would give `null` and throw otherwise.
- Aplenty: `ProcessPart` and `Passes` take a fuel bound on the number of workflow hops (None or 0 when it runs out), because a cycle of workflows would make the source recurse for ever; parsing the workflows and parts is not modelled.
- PulsePropagation: each button press is bounded by a fuel count of pulses; the parsing in the `Machine` constructor and the lookup of conjunction inputs are not modelled, the modules are given already connected.
- RedNosedReports, PrintQueue: parsing the reports, rules and updates is not modelled.
- BridgeRepair: numbers are unbounded naturals; JavaScript's loss of precision beyond 2^53, which `con` (`Number` of the two decimal strings joined) can reach, is not modelled.
- DiskFragmenter: the disk map is a sequence of digits already read.
- ChronospatialComputer.FindQuine: requires a non-empty program; the step of the puzzle's program is a parameter `f`.
- MonkeyMarket: `getBestSale` is not modelled; the source's secrets are `BigInt`s, modelled as unbounded naturals.
- CodeChronicle.ParseSchematic: requires a schematic with at least one row and no row longer than the first, as the source's column count from row 0 assumes.
- SecretEntrance, Cafeteria: the input parsers are not modelled.
- Lobby.FindBankJoltage: requires the bank to hold only digits 0..9, as its characters always are.
- Factory: only the operations of `EquationSystem` named in the model are covered. `forwardElimination`, `findAndPositionPivot`, `backSubstitution`, `reduce`, `solveEquationSystem` and `parseDiagram` are not modelled. JavaScript's `Infinity` for a diagram with no solution is None, and floating-point round-off in the elimination is not modelled (coefficients are integers).
- Factory.EquationSystem.constructor: requires every button to be non-empty and to name existing counters (`ButtonsFit`); in the source (2025/day-10/index.ts:126-139) an empty button gives a bound of `Math.min()`, Infinity, and an out-of-range index gives an `undefined` counter and a NaN bound, which are not modelled.
- Factory.EquationSystem.SolveMinimizingSum: requires at least one equation; the source (2025/day-10/index.ts:322-335) reads `this.coefficients[0].length` and throws a TypeError on an empty system, which is not modelled.
- Factory.Gcd: the `gcd` of the aoc-lib package (imported at 2025/day-10/index.ts:2) is not part of this model; it is assumed to return the non-negative gcd of the two magnitudes, positive whenever the second argument is non-zero.
- HandheldHalting: splitting an instruction string into operation and argument is not modelled.
- AdapterArray: the adapter list is read already parsed.
- AdapterArray.FindJoltDiffs: the doc comment at 2020/javascript/day-10/utils.js:4 promises null when the adapters cannot all be used, but the code always returns the counts; the model follows the code, and no null result is modelled.
- AdapterArray.TreeCombinations, AdapterArray.ArrayCombinations: on adapters that do not all connect, the two counts differ (DisconnectedDiffers); their agreement is proved only under the connection condition of TreeCountIsArrayCount, and which count is intended there is left open.
- RambunctiousRecitation: parsing the comma-separated starting numbers is not modelled; the starting list must be non-empty.
- TicketTranslation: parsing the ticket document and `multiplyDepartureFields` are not modelled.
- CrabCombat: both games take a fuel bound on the number of rounds (None when it runs out); the source's `JSON.stringify` of the two decks, used as the key of seen arrangements, is the pair of deck sequences.
- LobbyLayout: tile coordinates are pairs instead of `toString()` keys; `countBlackTiles` (a count over the dictionary) is not modelled.
- BinaryBoarding.SeatID: reads the pass letters; a letter with no entry in `rules` makes the source throw on destructuring `undefined`, and the model returns None instead.
- ShuttleSearch: the search loop of the bus schedule takes a fuel bound (None when it runs out), because the source loops until a timestamp fits; `Wait` requires a positive bus id.
- DockingData.SumMemory: requires the program to start with a mask and every mask to be valid; splitting the instruction lines is not modelled. `MaskValue` and `DecodeMemoryAddresses` require a mask of 36 `0`, `1` and `X` characters.
- GlobalUtils: the memoised search stores 0 for "not found", so a stored 0 is never reused as found; the model keeps this behaviour.
- CrabCups: require at least four cups (otherwise the lifted cups overlap the current one) and input labels that are exactly 1..len, as the puzzle gives. `findCupLabels` joins the labels into one string; the model returns the sequence of labels. `findStarCupProduct` is not modelled.
- ComboBreaker.FindLoop, ComboBreaker.FindEncryptionKey: require a loop size that produces the door key; the source loops for ever otherwise. JavaScript number precision is not an issue (every product stays below 2^53 for keys below the modulus) and is not modelled.
- TobogganTrajectory.CountTrees: requires dy ≥ 1; the source loops for ever for dy = 0 and indexes a negative row for dy < 0.

## Findings

| source | as written | input that shows it | evidently intended | confidence | as-written member | corrected member |
|---|---|---|---|---|---|---|
| 2021/go/day-03/main.go:33-38 | a new count slot is created without adding the digit that created it, so the first string's digits are never counted | `gamma(["1","0"])` is "0" although one of the two digits is 1 (a tie, which should give 1) | every string's digits are counted, as in the TypeScript version | high; not executed | BinaryDiagnosticGo.SkippedStringCounterexample | BinaryDiagnostic.TieFavoursOne |
| 2021/go/day-03/main.go:52-68 | `filterBitCriteria` filters the strings but returns `""` on every path | any input, e.g. `["10","01"]`, returns "" | return the sole surviving string | high; not executed | BinaryDiagnosticGo.FilterBitCriteria | BinaryDiagnostic.FindByBitCriteria |
| 2021/typescript/day-18/index.ts:149-152 | `explode` puts a `new Leaf(0)` in place of the pair without setting its parent, and `Leaf.split` only replaces a leaf that has a parent but reports success either way | adding `[0,[[2,[8,1]],[[4,0],0]]]` and `[0,0]`: that 0 later reaches 10, split reports success without splitting, and `reduce` recurses forever | the new leaf's parent is the exploded pair's parent; the sum is `[[5,[[5,0],[5,0]]],[0,0]]` | high; not executed | Snailfish.AddAsWrittenDiverges | Snailfish.AddReducesSameInput |
| 2022/day-13/index.ts:48-57 | when two sublists compare equal, the nested `isInRightOrder` returns `first.length < second.length`, false, instead of "no decision", so the outer comparison stops there | `[[1],2]` against `[[1],3]` is reported out of order | an equal sublist gives no decision and the comparison moves on to the next element | high; not executed | DistressSignal.EqualSublistCounterexample | DistressSignal.CompareListsAntisymmetric |
| 2023/day-09/index.ts:45 | forward extrapolation reads the first entry of each row (`at(0)`) and backwards the last (`at(-1)`) | `[1,2,3,4]` extrapolates forward to 2, where the doc comment expects 5 | forward reads the last entry of each row and backwards the first | high; not executed | MirageMaintenance.DocExampleAsWritten | MirageMaintenance.ArithmeticHistory |
| 2024/day-09/index.ts:37 | the loop runs while `i <= j`, so after the last swap it can step onto a moved file and move a gap past it | disk map `[1,2,1]`: blocks `0..1` become `0.1.`, not compacted | loop while `i < j`, and stop the inner scan for a file block (`while (compressed[j] === null) j--`) at the left cursor, so that on `[1,3,1]` it cannot run past `i`; every file block then ends before every gap | high; not executed | DiskFragmenter.AsWrittenCounterexample | DiskFragmenter.CompressBlock |
| 2023/day-19/index.ts:54-58 | the split puts the condition's value into the range without clamping it to the range's bounds, so a range can grow | workflow `in{x<1000:R,x>500:A,R}`: the `x>500` split of `x ∈ [1000,4001)` passes `[501,4001)` and counts parts already rejected | passing and failing parts are the range's values meeting and failing the condition | high; not executed | Aplenty.AsWrittenWidens | Aplenty.SplitRangeSound |
| 2025/day-10/index.ts:217-226 | `removeZeroRows` drops every all-zero coefficient row whatever its counter, so an inconsistent equation `0 = c` with c ≠ 0 disappears | two equations `x = 2` and `x = 3` eliminate to `x = 2`, `0 = 1`; removing the zero row leaves the solvable `x = 2` | an all-zero row with a non-zero counter means the system has no solution | high; not executed | Factory.ZeroRowCounterexample | Factory.CheckedRemovalKeepsSolutions |
| 2020/javascript/day-16/utils.js:58-66 | each ticket adds only its first invalid value (`find`), though the doc comment promises the sum of all invalid numbers | a ticket `[30,40]` against one field `1-3` adds 30, not 70 | every invalid value of every ticket is added | medium; not executed | TicketTranslation.ErrorRateCountsFirstOnly | TicketTranslation.ErrorRatesAgree |
| javascript/day-9/utils.js:21 | the doc comment of `findEncryptionWeakness` says it returns the product of the minimum and maximum of the run, while the code at line 33 returns their sum | the example run 15, 25, 47, 40: the product is 705, the code's answer 62 | the sum, which is what the puzzle asks for; the doc comment is what is wrong | high; not executed | EncodingError.DocumentedProductDiffers | EncodingError.FindEncryptionWeakness |
