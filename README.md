# Advent of Code 2020 solvers, modelled in Dafny

This project models the puzzle solvers of days 1–7 and 11–13 of a JavaScript Advent of Code
2020 repository, each in its own module:

- `Day01` (`day01.dfy`), Report Repair: two-sum and three-sum against 2020, using a set of the
  entries seen so far.
- `Day02` (`day02.dfy`), Password Philosophy: line parsing, the occurrence-count policy and the
  exactly-one-position policy.
- `Day03` (`day03.dfy`), Toboggan Trajectory: a strided walk over a map that repeats to the right,
  and the product over the five slopes.
- `Day04` (`day04.dfy`), Passport Processing: `key:value` records, the required-field check and
  the field validators.
- `Day05` (`day05.dfy`), Binary Boarding: the boarding-pass decoder, the highest id and the gap
  search over the sorted ids.
- `Day06` (`day06.dfy`), Custom Customs: per-group set union and set intersection sizes, and their
  sums.
- `BagRules` (`day07_rules.dfy`) and `BagGraph` (`day07.dfy`), Handy Haversacks:
  - the rule-line parser;
  - the two graphs;
  - the reverse-edge reachability count;
  - the memoised count of the bags inside a bag.
- `Seating` (`day11.dfy`), Seating System:
  - the seat index;
  - the adjacent and the first-visible neighbour lists;
  - the simultaneous round rule and the repeat-until-stable simulation.
- `Navigation` (`day12.dfy`), Rain Risk: instruction parsing, quarter-turn rotations, and the two
  navigation folds (heading and position for the ship, then ship and waypoint).
- `Shuttle` (`day13.dfy`), Shuttle Search:
  - Euclid's gcd and the lcm;
  - the minimum-wait bus;
  - the incremental Chinese-remainder search for the first timestamp at which every bus leaves
    at its offset.

Shared modules:

- `Wrappers` (`wrappers.dfy`) holds `Option` and `Result`. A `Failure` stands for a thrown
  JavaScript error, and carries its message.
- `Text` (`text.dfy`) holds digits, decimal numerals, JavaScript whitespace and the string splits.
- `Seqs` (`text.dfy`) holds the `filter(...).length` counts and `reduce` sums.

Where the source loops and updates variables, the model is a method with a loop. It is proved
against a specification function, and the properties the solvers rely on are lemmas about
those functions. JavaScript arithmetic is written out where it differs from Dafny's:

- `%` truncates toward zero;
- division of numbers is not integer division;
- a zero divisor gives `NaN`, or for `BigInt` throws.

## Model

| member | source | states |
|---|---|---|
| `Day01.SolvePart1` | day01/index.js:22-35 | null exactly when no two entries (at distinct positions) sum to 2020; otherwise the product of such a pair, the one whose later position comes first |
| `Day01.SolvePart2` | day01/index.js:37-55 | null exactly when no three entries at distinct positions sum to 2020; otherwise the product of such a triple with the smallest first position, and for it the smallest last position |
| `Day02.ParseLine` | day02/index.js:31-43 | an accepted line yields a letter as policy character and a non-empty single-line password; otherwise `Invalid line format: <line>` is thrown |
| `Day02.ParseLineSound` | day02/index.js:31-43 | every accepted line has the shape `<digits>-<digits><ws><letter>:<ws><password>` and the entry holds the values of those pieces |
| `Day02.ParseLineComplete` | day02/index.js:31-43 | every line of that shape is accepted with the values of its pieces; the password is the given one unless it begins with whitespace, which the pattern takes into the separator |
| `Day02.ParseFormat` | day02/index.js:31-43 | parsing a formatted entry gives the entry back |
| `Day02.IsValidPart1` | day02/index.js:49-55 | valid exactly when the number of occurrences of the policy character lies between the two numbers |
| `Day02.WideningKeepsPart1` | day02/index.js:54 | a valid entry stays valid when its range is widened |
| `Day02.IsValidPart2` | day02/index.js:62-71 | valid exactly when one, and only one, of the two 1-indexed positions holds the policy character (undefined positions never match) |
| `Day02.SamePositionsInvalid` | day02/index.js:62-71 | two equal positions never give a valid entry |
| `Day02.OutOfRangeInvalid` | day02/index.js:63-67 | positions 0 or past the end never match, and with both of them out of range the entry is invalid |
| `Day02.ShortPasswordCanBeValid` | day02/index.js:66-70 | an out-of-range second position does not stop an entry from being valid when the first position matches |
| `Day02.Solve` | day02/index.js:73-80 | succeeds exactly when every line parses; both counts are at most the number of lines |
| `Day03.StepCountExact` | day03/index.js:27-33 | row `k * down` is inside the map exactly when `k` is less than the ceiling of height over down, the number of turns of the walk |
| `Day03.CountTreesOnSlope` | day03/index.js:19-36 | the count is the number of steps whose cell `mapLines[row][col % width]` is `#` |
| `Day03.TreesBounded` | day03/index.js:27-35 | at most one tree per visited row |
| `Day03.NoTreesNoCount` | day03/index.js:28-29 | a map without `#` gives 0 on every slope |
| `Day03.MultiplySlopes` | day03/index.js:57-60 | the product of the tree counts over the given slopes |
| `Day03.FiveSlopes` | day03/index.js:49-55 | the slope list is right 1, 3, 5, 7 down 1 and right 1 down 2, so the product is that of those five counts |
| `Day03.Solve` | day03/index.js:49-60 | part 1 is the count for right 3 down 1, part 2 the product of the five counts |
| `Day04.LastValueWins` | day04/index.js:36-39 | the passport's keys are exactly the tokens' keys, and a repeated key keeps the value of its last token |
| `Day04.ParsePassport` | day04/index.js:33-40 | the record built by the token loop of one block |
| `Day04.ParsePassports` | day04/index.js:27-42 | one record per `\n\n` block, each the record of that block's whitespace-separated tokens |
| `Day04.RequiredFieldsAre` | day04/index.js:44-49 | a passport has all required fields exactly when it has the seven keys `byr iyr eyr hgt hcl ecl pid` |
| `Day04.IsStrictlyValid` | day04/index.js:87-100 | strict validity implies the required fields; a present but undefined `hgt` throws in `match` |
| `Day04.YearInRange` | day04/index.js:53-58 | a four-digit year is valid exactly when it is within its range |
| `Day04.YearNeedsFourDigits` | day04/index.js:55 | a year of any other length is invalid |
| `Day04.HeightInRange` | day04/index.js:60-70 | `<n>cm` is valid exactly for 150..193, `<n>in` exactly for 59..76 |
| `Day04.HeightNeedsUnit` | day04/index.js:62-63 | a height without a `cm` or `in` suffix is invalid |
| `Day04.HairColorIsLowerCase` | day04/index.js:72-75 | an upper-case hex digit makes the hair colour invalid |
| `Day04.PassportIdLeadingZeros` | day04/index.js:82-85 | nine digits with leading zeros are a valid passport id |
| `Day04.OtherKeysIgnored` | day04/index.js:87-100 | adding or changing a key that is not required changes neither verdict |
| `Day04.CidIgnored` | day04/index.js:20-21 | `cid` in particular is optional: it changes neither verdict |
| `Day04.CountStrictlyValid` | day04/index.js:106 | the count fails exactly when some passport's check throws, and never exceeds the part 1 count |
| `Day04.Solve` | day04/index.js:102-109 | fails exactly when a strict check throws; the strict count is at most the required-field count, which is at most the number of blocks |
| `Day05.SeatIdFromCode` | day05/index.js:30-36 | the id of a code of n letters is below 2^n |
| `Day05.BinaryBound` | day05/index.js:35 | the binary value of a string of n digits is below 2^n |
| `Day05.BinaryAppend` | day05/index.js:35 | the binary value of a concatenation is the high part shifted by the length of the low part |
| `Day05.RowTimesEightPlusColumn` | day05/index.js:30-36 | for a seven-row, three-column code the id is row * 8 + column, below 1024 |
| `Day05.SeatIdsDistinct` | day05/index.js:30-36 | distinct seat codes give distinct ids |
| `Day05.SeatCodeDecodes` | day05/index.js:25-36 | every id in 0..1023 is the id of a seat code: decoding the code `SeatCode` writes for it gives the id back |
| `Day05.SeatCodeEncodes` | day05/index.js:25-36 | encoding the id of a seat code gives the code back, so the decoder is a bijection between seat codes and 0..1023 |
| `Day05.MaxOf` | day05/index.js:42 | the maximum is an element and no element exceeds it; none for no ids |
| `Day05.SortAscending` | day05/index.js:45 | the sorted ids are ascending and a permutation of the ids |
| `Day05.FindGap` | day05/index.js:47-56 | the scan reports the first adjacent pair differing by 2 (its lower id plus 1), null exactly when there is none |
| `Day05.PairGivesGap` | day05/index.js:52-53 | in ascending ids, such a pair brackets a free seat whose two neighbours are taken |
| `Day05.GapGivesPair` | day05/index.js:47-56 | in ascending ids, every such free seat sits between an adjacent pair differing by 2 |
| `Day05.FirstPairSmallestGap` | day05/index.js:47-56 | the first such pair gives the smallest such free seat |
| `Day05.ScanFindsSmallestGap` | day05/index.js:44-56 | read back on the unsorted ids, the scan's answer is the smallest free seat with both neighbours taken, and null when there is none |
| `Day05.SeatIds` | day05/index.js:39 | one id per line, in order |
| `Day05.Solve` | day05/index.js:38-59 | part 1 is the highest id; part 2 is the smallest free seat between two taken ones, or null |
| `Day06.NonEmptyLines` | day06/index.js:22 | the kept lines are exactly the non-empty ones |
| `Day06.CountUnionYes` | day06/index.js:20-29 | the number of questions someone in the group answered |
| `Day06.CountIntersectionYes` | day06/index.js:31-44 | the number of questions everyone in the group answered, 0 for a group without people |
| `Day06.EveryoneWithinAnyone` | day06/index.js:36-43 | what everybody answered, somebody answered, so the part 2 count never exceeds the part 1 count |
| `Day06.OnePerson` | day06/index.js:24-27 | for a single person both counts are that person's distinct answers |
| `Day06.BlankLinesIgnored` | day06/index.js:22 | blank lines change neither count |
| `Day06.Totals` | day06/index.js:52-53 | the two sums over the groups, and part 2 is at most part 1 |
| `BagRules.FirstSplit` | day07/index.js:29 | the first position at which the line splits as `<outer> bags contain <contents>.`, the lazy `(.+?)` |
| `BagRules.MatchRuleMeaning` | day07/index.js:29-30 | no match exactly when the line has no such split; otherwise the pieces of the first split |
| `BagRules.TryWhitespaceFails` | day07/index.js:42 | the backtracking search over the first w characters of the whitespace run after the n digits fails exactly when no split into `<ws><color> bag` with at most w whitespace characters exists there |
| `BagRules.TryWhitespaceFinds` | day07/index.js:42 | what it finds is such a split after the n digits, with the shortest colour |
| `BagRules.TryWhitespaceLongest` | day07/index.js:42 | and with the longest whitespace run, up to w, that admits a split after the n digits |
| `BagRules.MatchContentMeaning` | day07/index.js:42-44 | a content token matches exactly when some split exists; the count is the value of its digits and the colour the text up to the first ` bag` after the greedy whitespace run |
| `BagRules.ParseContent` | day07/index.js:42-44 | succeeds exactly when the token matches, with the matched count and colour |
| `BagRules.ParseContentsMeaning` | day07/index.js:35-45 | `no other bags` gives no contents; otherwise one content per `, ` part, failing exactly when some part does not match |
| `BagRules.ParseRule` | day07/index.js:26-48 | `Bad rule line` when the line does not match; otherwise the outer colour with the parsed contents, which are empty exactly for `no other bags` |
| `BagRules.ParseFormat` | day07/index.js:26-48 | parsing a formatted rule with well-formed colours gives the rule back |
| `BagRules.ParseContentsFormat` | day07/index.js:35-45 | parsing formatted contents gives them back |
| `BagRules.MatchContentFormat` | day07/index.js:42-44 | matching a formatted content token gives it back |
| `BagRules.MatchRuleFormat` | day07/index.js:29-33 | matching a formatted rule line gives its outer colour and contents text back |
| `BagGraph.LastRuleWins` | day07/index.js:61-63 | the forward graph's keys are the rules' outer colours, and each holds the contents of the last rule for that colour |
| `BagGraph.AddEdgeStep` | day07/index.js:65-70 | adding one content item adds exactly the edge inner → outer to the reverse graph |
| `BagGraph.NoContentsStep` | day07/index.js:65-70 | a rule without contents leaves the reverse graph unchanged |
| `BagGraph.AddContainedBy` | day07/index.js:65-70 | after one rule's contents the reverse graph is that of the rules so far |
| `BagGraph.FirstFailure` | day07/index.js:61-62 | parsing stops with the error of the first bad line |
| `BagGraph.BuildGraphs` | day07/index.js:57-74 | fails exactly with the first parse error; otherwise the forward graph keeps the last rule per colour, and the reverse graph maps each inner colour to exactly the outer colours listing it |
| `BagGraph.VisitTop` | day07/index.js:86-95 | one turn keeps the search invariant with the popped colour now expanded, and either visits a new colour or shrinks the stack |
| `BagGraph.PushNewParents` | day07/index.js:90-95 | all parents become visited, and only those not visited before are pushed |
| `BagGraph.DfsStep` | day07/index.js:85-96 | one pop and expansion keeps the search invariant: the visited colours are ancestors, and every visited colour is expanded or on the stack |
| `BagGraph.ClosedSetHoldsAncestors` | day07/index.js:85-98 | once the stack is empty the visited set is exactly the set of ancestors |
| `BagGraph.CountColorsThatCanEventuallyContain` | day07/index.js:81-99 | the count is the number of colours reachable from the target by one or more reverse edges |
| `BagGraph.CountTotalBagsInside` | day07/index.js:109-121 | the total is the sum over the contents of count × (1 + the total inside that colour); the memo stays sound and keeps its earlier entries |
| `BagGraph.TotalAnyRank` | day07/index.js:109-121 | the total does not depend on the ranking used to show the colours below it acyclic |
| `BagGraph.EachContentCounted` | day07/index.js:115-116 | each content item contributes at least count × (1 + its own total) |
| `BagGraph.ContentsTotalGrows` | day07/index.js:115-117 | the running total over the contents never decreases |
| `BagGraph.EmptyHoldsNothing` | day07/index.js:112 | a colour with no rule, or with no contents, holds 0 bags |
| `BagGraph.UnreachableCycleIgnored` | day07/index.js:109-127 | a cycle that `shiny gold` cannot reach leaves part 2 defined, and a `shiny gold` without contents holds 0 bags |
| `BagGraph.Solve` | day07/index.js:123-130 | fails exactly with the first parse error; part 1 is the number of colours that can contain shiny gold, part 2 the total inside shiny gold |
| `Seating.RowSeatsMeaning` | day11/index.js:41-47 | the seats found in a row before a column are exactly its seat cells, in order |
| `Seating.SeatsAboveMeaning` | day11/index.js:40-49 | the seats found above a row are exactly the seat cells there, in row-major order |
| `Seating.SeatCellsMeaning` | day11/index.js:36-52 | the enumeration holds exactly the non-`.` cells, in row-major order |
| `Seating.NumberSeat` | day11/index.js:42-46 | numbering one more seat extends the row-major enumeration by it and keeps the map an exact inverse |
| `Seating.IndexExtend` | day11/index.js:43-46 | pushing a new seat and mapping it to its index keeps the map an exact inverse of the list |
| `Seating.BuildSeatIndex` | day11/index.js:36-52 | the list of seat positions is the row-major enumeration of the non-`.` cells, and the map sends each exactly to its index |
| `Seating.IndexOfSeat` | day11/index.js:36-52 | every seat cell is in the map, and the map sends it to its own index |
| `Seating.IndexUnique` | day11/index.js:38 | only one map is an exact inverse of the list |
| `Seating.SeatIndexMap` | day11/index.js:38 | the coordinate map, written as one expression, is that inverse |
| `Seating.PrecomputeAdjacentNeighbors` | day11/index.js:58-79 | one list per seat: the seats one step away in each of the eight directions, in that order |
| `Seating.AdjacentOf` | day11/index.js:64-75 | the list for one seat is its in-bounds seats one step away, direction by direction in the order of the eight offsets |
| `Seating.AdjacentListLength` | day11/index.js:64-75 | at most one entry per direction, so at most eight |
| `Seating.AdjacentEntrySound` | day11/index.js:64-75 | each entry of a direction is the in-bounds seat at that offset |
| `Seating.AdjacentListSound` | day11/index.js:58-79 | every entry is defined, the index of an in-bounds seat at one of the eight offsets, and never the seat itself |
| `Seating.AdjacentEntryComplete` | day11/index.js:64-75 | an in-bounds seat at a direction's offset is that direction's entry |
| `Seating.AdjacentListComplete` | day11/index.js:58-79 | every in-bounds seat at one of the eight offsets is in the list |
| `Seating.OffsetMoves` | day11/index.js:21-25 | none of the eight offsets is zero |
| `Seating.SeatInGrid` | day11/index.js:68-69 | in a rectangular grid every seat passes the bounds check |
| `Seating.RayShift` | day11/index.js:92-101 | a ray started one step further on is the same ray one step later |
| `Seating.FloorThenRest` | day11/index.js:95-101 | floor at the ray's first cell, then floor after it, means floor all along |
| `Seating.FirstVisibleFinds` | day11/index.js:95-99 | the cell found is the first non-floor cell on the ray, with floor at every cell before it |
| `Seating.FirstVisibleExits` | day11/index.js:95 | when nothing is found, the ray leaves the grid after floor only |
| `Seating.ScanDirection` | day11/index.js:91-103 | the walk in one direction gives the entry of the first non-floor cell, or none |
| `Seating.PrecomputeVisibleNeighbors` | day11/index.js:85-107 | one list per seat: the first non-floor cell in each of the eight directions, in that order |
| `Seating.VisibleOf` | day11/index.js:91-103 | the list for one seat is the first non-floor cell of each of the eight rays, in direction order |
| `Seating.VisibleListLength` | day11/index.js:91-103 | at most one entry per direction |
| `Seating.RayFormula` | day11/index.js:92-101 | step t of a ray is the start plus t times the offset |
| `Seating.RayLeaves` | day11/index.js:92-101 | a ray never returns to its start |
| `Seating.VisibleEntryMeaning` | day11/index.js:91-103 | in a rectangular grid a direction yields at most one entry: a seat other than the start, with floor at every cell before it; no entry means the ray left the grid seeing only floor |
| `Seating.Round` | day11/index.js:117-138 | a round keeps the number of seats, and keeps the seats in `L`/`#` |
| `Seating.RunRound` | day11/index.js:117-138 | the next states are one simultaneous round, and `didChange` is true exactly when some state changed |
| `Seating.Iterate` | day11/index.js:116-142 | repeated rounds keep the number of seats |
| `Seating.SimulateUntilStable` | day11/index.js:113-143 | the result is the first fixed point of the rounds, if one is reached within the round bound |
| `Seating.StabilizeFindsFirstFixedPoint` | day11/index.js:116-142 | a result is round k of the states for some k within the bound, is a fixed point, and no earlier round is one |
| `Seating.StabilizeGivesUp` | day11/index.js:116-142 | no result means no fixed point within the bound |
| `Seating.FixedPointStays` | day11/index.js:140 | further rounds leave a fixed point unchanged |
| `Seating.StabilizeKeepsSeatStates` | day11/index.js:114-117 | the stable states are still all `L`/`#` |
| `Seating.FixedPointMeaning` | day11/index.js:131-137 | states are fixed exactly when every empty seat sees an occupied one and every occupied seat sees fewer than the threshold |
| `Seating.OccupiedCountLocal` | day11/index.js:123-126 | the occupied count depends only on the neighbours' current states |
| `Seating.RoundIsLocal` | day11/index.js:120-137 | a seat's next state depends only on its own state and its neighbours' current states: all seats update simultaneously |
| `Seating.OccupiedCountBound` | day11/index.js:123-126 | the occupied count is at most the number of neighbours |
| `Seating.InitialStates` | day11/index.js:151 | one initial state per seat: the grid character at that seat |
| `Seating.AdjacentLists` | day11/index.js:154 | one adjacent list per seat |
| `Seating.VisibleLists` | day11/index.js:159 | one visible list per seat |
| `Seating.InitialSeatStates` | day11/index.js:151 | on a grid of `.`, `L` and `#`, the initial states are all `L`/`#` |
| `Seating.Solve` | day11/index.js:145-164 | both parts stabilise (thresholds 4 and 5 over the two neighbour lists), and the answers are the numbers of `#` in the stable states |
| `Navigation.ParseFormat` | day12/index.js:20-23 | parsing a formatted instruction gives it back |
| `Navigation.Manhattan` | day12/index.js:25-27 | the distance is 0 exactly at the origin |
| `Navigation.RotateLeft90` | day12/index.js:35-38 | a left quarter turn keeps the Manhattan distance |
| `Navigation.RotateRight90` | day12/index.js:30-33 | a right quarter turn keeps the distance, and a left turn undoes it |
| `Navigation.LeftThenRight` | day12/index.js:30-38 | a right quarter turn undoes a left one |
| `Navigation.QuarterTurns` | day12/index.js:45-48 | repeated quarter turns keep the distance |
| `Navigation.QuarterTurnsClosedForm` | day12/index.js:30-38 | k quarter turns are the rotation by k mod 4, given in closed form |
| `Navigation.QuarterTurnsPeriod` | day12/index.js:40-51 | four more turns change nothing |
| `Navigation.QuarterTurnsOtherWay` | day12/index.js:40-51 | k turns one way are (4 − k mod 4) mod 4 turns the other way |
| `Navigation.RightThenLeftRestores` | day12/index.js:40-51 | rotating the waypoint right by d degrees and then left by d degrees restores it |
| `Navigation.Turns` | day12/index.js:41-45 | the loop runs ceil(((degrees / 90) % 4)) times: at most 4, 0 for no degrees, (d / 90) mod 4 for a multiple of 90 |
| `Navigation.RotateWaypoint` | day12/index.js:40-51 | the result is that many quarter turns right (R) or left (otherwise), and keeps the distance |
| `Navigation.JsRem4` | day12/index.js:67-68 | the truncating remainder by 4 lies in −3..3 with the sign of the dividend, and agrees with the remainder modulo 4 |
| `Navigation.PartOneRunExtend` | day12/index.js:62-78 | the run over one more instruction is one more step after the run so far |
| `Navigation.PartOneFailureStays` | day12/index.js:76 | once an instruction throws, the whole run fails with that error |
| `Navigation.PartOneInstruction` | day12/index.js:63-77 | one instruction of part 1: N/S/E/W move, L/R turn the heading, F moves along the heading, others throw `Unknown action` |
| `Navigation.SolvePart1` | day12/index.js:53-81 | the Manhattan distance of the ship after the fold from (0,0) facing East; the first unknown action's error otherwise |
| `Navigation.HeadingStep` | day12/index.js:67-68 | a turn of at most 360 degrees keeps the heading in 0..3, equal to the net quarter turns mod 4 |
| `Navigation.HeadingIsNetTurns` | day12/index.js:62-78 | with turns of at most 360 degrees, the heading stays in 0..3 and is the net right quarter turns mod 4 |
| `Navigation.ModStep` | day12/index.js:67-68 | adding turns to the heading agrees with adding them to the net count, modulo 4 |
| `Navigation.LongLeftTurn` | day12/index.js:67-74 | `L450` makes the heading −1, and an `F` then moves the ship west |
| `Navigation.PartTwoFailureStays` | day12/index.js:102-104 | once an instruction throws, the whole run fails with that error |
| `Navigation.SolvePart2` | day12/index.js:83-108 | the Manhattan distance of the ship after the fold with the waypoint starting at (10,1); the first unknown action's error otherwise |
| `Navigation.WaypointDistanceKept` | day12/index.js:96-101 | with only L, R and F instructions the waypoint keeps its distance 11 from the ship |
| `Navigation.PublishedExample` | day12/index.js:53-108 | the puzzle's example gives 25 for part 1 and 286 for part 2 |
| `Shuttle.MultipleMod` | day13/index.js:88 | a product with d as a factor leaves remainder 0 modulo d |
| `Shuttle.DividesSum` | day13/index.js:88-90 | common multiples of d are closed under sum and difference |
| `Shuttle.GcdDivides` | day13/index.js:29-33 | Euclid's result divides both numbers |
| `Shuttle.GcdGreatest` | day13/index.js:29-33 | every common divisor divides Euclid's result |
| `Shuttle.GcdZero` | day13/index.js:25-35 | the gcd is 0 exactly for two zeros |
| `Shuttle.Bezout` | day13/index.js:29-33 | the gcd is an integer combination of the two numbers |
| `Shuttle.GcdBigInt` | day13/index.js:25-35 | the result is the gcd of the absolute values: it divides both, every common divisor divides it, and gcd(a, 0) = abs(a) |
| `Shuttle.LcmBigInt` | day13/index.js:41-43 | `(a / gcd) * b` with truncating division, a division-by-zero error when both are 0 |
| `Shuttle.LcmMeaning` | day13/index.js:41-43 | fails exactly for two zeros; for positive numbers the lcm is positive, a common multiple, and divides every common multiple |
| `Shuttle.LcmLeast` | day13/index.js:41-43 | the lcm divides every common multiple |
| `Shuttle.JsRem` | day13/index.js:56 | the truncating remainder is `NaN` exactly for divisor 0; otherwise it is smaller than the divisor in size, has the sign of the dividend, and differs from the dividend by a multiple of the divisor |
| `Shuttle.WaitMeaning` | day13/index.js:56 | for a positive id the wait lies in [0, id), earliest + wait is a multiple of the id, and no smaller wait is |
| `Shuttle.SolvePart1` | day13/index.js:51-64 | the product of the chosen bus and its wait; `NaN` when no bus gave a numeric wait |
| `Shuttle.BestIsFirstMinimum` | day13/index.js:51-64 | a bus is chosen exactly when some id is non-zero; the chosen one has the least wait of all, and every bus before it has a strictly greater wait, so ties go to the earliest bus |
| `Shuttle.PublishedPartOne` | day13/index.js:51-64 | the puzzle's example chooses bus 59 with a wait of 5 |
| `Shuttle.GoodPrefix` | day13/index.js:81-87 | the slots before the first one that throws, which is where the loop stops |
| `Shuttle.SlotIds` | day13/index.js:83-85 | an `x` slot, the only kind that may have id 0 before the first bad slot, keeps its offset |
| `Shuttle.StepMultiples` | day13/index.js:93 | the step is positive, and its multiples are exactly the common multiples of the ids placed so far: it is their lcm |
| `Shuttle.MeetsModStep` | day13/index.js:88-93 | once a timestamp meets the slots so far, the timestamps that do are exactly those a multiple of the step away, so adding the step keeps every earlier slot met |
| `Shuttle.NoneEarlierGrows` | day13/index.js:88-90 | a timestamp below the least solution for fewer slots is no solution for more |
| `Shuttle.SkipSlot` | day13/index.js:83 | an `x` slot adds no condition |
| `Shuttle.AlignStep` | day13/index.js:88-90 | while slot k is missed, the step skips only timestamps that miss some slot, and does not pass the solution |
| `Shuttle.StepOfNext` | day13/index.js:93 | folding a non-zero id into the step gives a positive lcm, which is the step for one slot more |
| `Shuttle.PlaceBus` | day13/index.js:85-93 | after one bus slot the time is the least one meeting that slot and every earlier one, and the step is the lcm of the ids so far |
| `Shuttle.Align` | day13/index.js:88-90 | the loop ends at the least timestamp meeting one slot more |
| `Shuttle.SolvePart2` | day13/index.js:77-97 | the decimal text of the least non-negative timestamp at which every bus leaves at its offset; the first bad slot's error otherwise |

## Left out

- Reading the input files and the `main` functions (splitting the input into lines or blocks,
  `Number(...)` of the input values, printing) are not modelled; each solver takes its parsed
  arguments. `utils/readInput.js` is not part of this model.
- Regular expressions are modelled by hand-written matchers for the one pattern each solver uses,
  with the same greedy or lazy choices; the regular-expression engine itself is not modelled.
- `Number(...)`, `parseInt` and `BigInt(...)` are modelled on decimal digits (with an optional
  sign in day 12). Signs, whitespace, hexadecimal and exponents are not modelled. Numbers are
  unbounded integers, so floating-point rounding beyond 2^53 is not modelled.
- Day 4 keys such as `__proto__`, which JavaScript objects treat specially, are ordinary keys
  in the model.
- Every string is a sequence of characters, and only text within the Basic Multilingual Plane is
  modelled. The source indexes and splits strings by UTF-16 code unit, which agrees with that
  reading there; a character outside the plane is two code units to it.
- `Day02.ParseLine` takes the line as a string of characters. Characters outside the Basic
  Multilingual Plane, which JavaScript sees as two code units, are not modelled.
- `Day03.CountTreesOnSlope` indexes rows by character, where the source indexes by code unit, so
  a map with characters outside the Basic Multilingual Plane is not modelled.
- `Day03.CountTreesOnSlope` requires a non-empty map. On an empty map the source reads the
  length of a missing first row and throws a `TypeError`, which is not modelled.
- `Day06.CountIntersectionYes`, `Day06.EveryoneWithinAnyone` and `Day06.Totals` read each answer
  line as characters. The source counts the union over code points (`for...of`) but splits
  for the intersection into code units (`split("")`). So for an answer outside the Basic
  Multilingual Plane, such as an emoji, the source's part 2 count exceeds its part 1 count, and
  the bound part 2 <= part 1 holds only for the text modelled.
- `Seating.BuildSeatIndex` reads the grid by character, where the source indexes rows by code
  unit, so a grid with characters outside the Basic Multilingual Plane is not modelled.
- `Day05.Solve` requires every line to be a word over F, B, L and R. Other text makes
  `parseInt` return `NaN`, and the order `sort` gives to `NaN` is implementation-defined.
- `Day05.SortAscending`: the library sort is specified by its result (ascending and a
  permutation), not by an in-place algorithm.
- `Day06.Totals`: the two `reduce` sums over the groups are written as one loop.
- `BagGraph.CountColorsThatCanEventuallyContain` pops and pushes the same way as the source.
  The order in which a `Set` yields its elements is not modelled, so the push order is not
  fixed; the count does not depend on it.
- `BagGraph.PushNewParents` and `BagGraph.AddContainedBy` are the inner loops of the source,
  written as methods of their own; `BagGraph.VisitTop` is the body of the search loop.
- `BagGraph.CountTotalBagsInside` threads the memo as a value rather than sharing a mutable
  `Map`.
  - It requires a ranking of the colours reachable from the colour asked about, which shows that
    part of the containment graph acyclic. Cycles elsewhere in the graph are allowed, as they
    are in the source.
  - A cycle reachable from that colour makes the source recurse until the call stack overflows
    and a `RangeError` is thrown. That error is not modelled: `BagGraph.Solve` requires the
    colours reachable from `shiny gold` to hold no cycle.
- `Seating.SimulateUntilStable` repeats rounds at most `maxRounds` times, because the text of
  the source does not show that its `while (true)` loop ends. When the bound is reached,
  `Seating.Solve` returns none.
- `Seating`: the state arrays are sequences, and the coordinate key `"row,col"` is the pair
  (row, col), which it names one-to-one.
- `Seating.ScanDirection` is the ray loop of the source, written as a method of its own.
- `Seating.AdjacentOf` and `Seating.VisibleOf` are the direction loops of the source. They build
  one seat's list and store it whole, where the source pushes into `neighbors[i]` in place.
- `Seating.AdjacentListSound`, `Seating.AdjacentListComplete` and `Seating.VisibleEntryMeaning`
  state the meaning of the neighbour lists only where it holds:
  - the bounds check uses the width of the first row, so the lemmas that need it require a
    rectangular grid;
  - they also require an exact seat index.
  The lists themselves are computed for every grid.
- `Navigation.SolvePart1` (and `PartOneRun`) requires each L/R value to be a multiple of 90. The
  source divides by 90 in floating point, and any other value gives a fractional heading index.
- `Navigation.ParseInstruction` requires the text after the action letter to be an optionally
  signed run of digits. `Number` reads other text too: it skips surrounding whitespace, and it
  reads decimals, exponents and hexadecimal (`Number(" 5")` is 5, `Number("1e1")` is 10,
  `Number("0x10")` is 16). A blank value is 0, and only text that is not a numeral gives `NaN`.
  These are not modelled.
- `Navigation.PartOneInstruction` is the loop body of part 1, written as a method of its own.
- `Shuttle.SolvePart1` takes the ids as integers.
  - A `NaN` id (from a non-numeric token) is not modelled.
  - The only `NaN` wait modelled is the one from id 0.
- `Shuttle.SolvePart2` and `Shuttle.TokenValue` read a slot as a bus id only when it is a run
  of decimal digits. `BigInt` also accepts a sign, surrounding whitespace and `0x`/`0o`/`0b`
  numerals (`BigInt("+7")` is 7n, `BigInt("0x1f")` is 31n, `BigInt("-7")` is -7n). The model
  reports such a slot with the `Cannot convert ... to a BigInt` error, although the source
  accepts it; for the tokens `["+7"]` the source returns `"0"`.
- `Shuttle.SolvePart2` requires the congruences of the slots before the first bad slot to have
  a common non-negative solution. Without one, the `while` loop of the source runs forever.
- `Shuttle.Align` is the `while` loop of part 2, written as a method of its own;
  `Shuttle.PlaceBus` is the body of the slot loop for a bus slot.
- `Shuttle.LcmBigInt`: the error for two zeros is modelled by its message only, not as an
  `RangeError` object.
