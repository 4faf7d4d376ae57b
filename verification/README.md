# Advent of Code puzzle programs, modelled in Dafny

The program is a collection of independent C++ solutions to Advent of Code
puzzles from 2021 to 2024. Each solution reads a puzzle input, runs one
small, deterministic algorithm over strings, integers and grids, and prints
one answer per part. This project models those algorithms, one Dafny module
per puzzle file. It proves what each step computes and how the steps fit
together.

Conventions used throughout:

- Undefined behaviour in the program is modelled as `None` where an ordinary
  input can reach it. This covers an out-of-range `vector` read, a `.at` that
  throws, and `stoi` of an empty string. Where only a malformed input can
  reach it, the member requires the input to exclude it instead, and the line
  under "## Left out" says so.
- `int`, `long long` and `size_t` arithmetic is modelled on unbounded
  integers. The C++ truncating `/` and `%` are written out (`Common.TDiv`,
  `Common.TRem`), because Dafny's operators are Euclidean. Wrap-around is
  not modelled; "## Left out" states the bounds under which the model is
  exact.
- File reading and printing are outside the model. Each operation starts
  from the already-read lines, numbers or grid.
- Where the program as written differs from what it evidently means, both
  are modelled. The `…AsWritten`/`…Written` member follows the code, and a
  lemma exhibits an input on which the two differ. "## Findings" lists
  these.

| module | puzzle file |
|---|---|
| `Common`, `Decimal` | shared helpers: sums, counts, splitting, sorting, truncating division; `stoi`/`stoll` and decimal writing |
| `SonarSweep` | 2021/Day_1_Sonar_Sweep/sonar_sweep.cpp |
| `Dive` | 2021/Day_2_Dive/dive.cpp |
| `BinaryDiagnostic` | 2021/Day_3_Binary_Diagnostic/bin_diagnose.cpp |
| `GiantSquid` | 2021/Day_4_Giant_Squid/squid.cpp |
| `Venture` | 2021/Day_5_venture/venture.cpp |
| `LanternFish` | 2021/Day_6_Lantern_Fish/lantern.cpp |
| `SevenSegment`, `SevenSegmentDeduction` | 2021/Day_8_Seven_Segment/seven_segment.cpp (the program, then the theorem that its deduction recovers any wiring) |
| `PassagePathing` | 2021/Day_12_Passage_Pathing/passage_pathing.cpp |
| `Polymerization` | 2021/Day_14_Extended_Polymerization/day14_extended_polymerization.cpp |
| `Chiton`, `ChitonSearch` | 2021/Day_15_Chiton/day_15_chiton.cpp (grid and scaling, then the Dijkstra search) |
| `PacketDecoder` | 2021/Day_16_Packet_Decoder/packet_decoder.cpp |
| `CalorieCounting` | 2022/Day1_CalorieCounting/calorie_counting.cpp |
| `RockPaperScissors` | 2022/Day2_RockPaperScissors/rock_paper_scissor.cpp |
| `SupplyStack` | 2022/Day5_SupplyStack/supply_stack.cpp |
| `TuningTrouble` | 2022/Day6_TuningTrouble/tuning_trouble.cpp |
| `Treetop` | 2022/Day8_TreetopTreeHouse/tree_house.cpp |
| `CathodeRayTube` | 2022/Day10_Cathode-RayTube/cathode_ray_tube.cpp |
| `Trebuchet` | 2023/Day1_Trebuchet/trebuchet.cpp |
| `HistorianHysteria` | 2024/Day_1_Historian_Hysteria/day_1_historian_hysteria.cpp |
| `RedNosedReports` | 2024/Day_2_Red_Nosed_Reports/day_2_red_nosed_reports.cpp |
| `CeresSearch` | 2024/Day_4_Ceres_Search/day_4_ceres_search.cpp |
| `PrintQueue` | 2024/Day_5_Print_Queue/day_5_print_queue.cpp |
| `BridgeRepair` | 2024/Day_7_Bridge_Repair/day_7_bridge_repair.cpp |
| `Resonant` | 2024/Day_8_Resonant_Collinearity/day_8_resonant_collinearity.cpp |
| `DiskFragmenter` | 2024/Day_9_Disk_Fragmenter/day_9_disk_fragmenter.cpp |
| `HoofIt` | 2024/Day_10_Hoof_It/day_10_hoof_it.cpp |
| `PlutonianPebbles` | 2024/Day_11_Plutonian_Pebbles/day_11_lutonian_pebbles.cpp |
| `GardenGroups` | 2024/Day_12_Garden_Groups/day_12_garden_groups.cpp |
| `ClawContraption` | 2024/Day_13_Claw_Contraption/day_13_2024.cpp |
| `Restroom` | 2024/Day_14_Restroom_Redoubt/day_14_restroom_redoubt.cpp |
| `WarehouseWoes`, `WarehouseSolve` | 2024/Day_15_Warehouse_Woes/day_15_warehouse_woes.cpp (grid, part 1 and horizontal part 2 moves; then vertical part 2 moves and the whole run) |
| `Chronospatial` | 2024/Day_17_Chronospatial_Computer/day_17_chronospatial_computer.cpp |
| `RamRun` | 2024/Day_18_RAM_Run/day_18_ram_run.cpp |
| `LinenLayout` | 2024/Day_19_Linen_Layout/day_19_linen_layout.cpp |

## Model

| member | source | states |
|---|---|---|
| `SonarSweep.CountValueIncrease` | 2021/Day_1_Sonar_Sweep/sonar_sweep.cpp:40-48 | the number of positions whose depth exceeds the one before; at most one less than the number of depths, and 0 for a single depth |
| `SonarSweep.IncreasesBound` | 2021/Day_1_Sonar_Sweep/sonar_sweep.cpp:40-48 | among the first n depths at most n - 1 increases can occur |
| `SonarSweep.WindowSums` | 2021/Day_1_Sonar_Sweep/sonar_sweep.cpp:52-64 | the running sum, updated by adding the depth in front and dropping the one behind, yields every sum of three consecutive depths, in order |
| `SonarSweep.IncreasesOfWindows` | 2021/Day_1_Sonar_Sweep/sonar_sweep.cpp:56-65 | an increase between two consecutive window sums is an increase between the two depths three apart, since the middle two cancel |
| `SonarSweep.Part2` | 2021/Day_1_Sonar_Sweep/sonar_sweep.cpp:50-66 | the number of window increases, which is the number of depths larger than the one three places back, at most the length less three |
| `Trebuchet.FirstDigitPos` | 2023/Day1_Trebuchet/trebuchet.cpp:15 | the position of a digit with no digit before it |
| `Trebuchet.LastDigitPos` | 2023/Day1_Trebuchet/trebuchet.cpp:16 | the position of a digit with no digit after it |
| `Trebuchet.LineValue` | 2023/Day1_Trebuchet/trebuchet.cpp:17-19 | a two-digit calibration value, at most 99 |
| `Trebuchet.LineValueOfFirstAndLast` | 2023/Day1_Trebuchet/trebuchet.cpp:15-19 | the value is ten times the first digit of the line plus its last digit |
| `Trebuchet.LineValueSingleDigit` | 2023/Day1_Trebuchet/trebuchet.cpp:15-19 | a line with one digit uses it twice, giving eleven times that digit |
| `Trebuchet.CalibrationSumBounds` | 2023/Day1_Trebuchet/trebuchet.cpp:13-22 | the total over n words with digits lies between 0 and 99 n |
| `Trebuchet.CalibrationSumAppend` | 2023/Day1_Trebuchet/trebuchet.cpp:13-22 | the total over two runs of words is the sum of their totals |
| `Dive.Forward` | 2021/Day_2_Dive/dive.cpp:37-41 | forward moves the position by the units and the depth by aim times the units, leaving the aim |
| `Dive.Down` | 2021/Day_2_Dive/dive.cpp:42-45 | down raises the aim by the units and moves nothing |
| `Dive.Up` | 2021/Day_2_Dive/dive.cpp:46-49 | up lowers the aim by the units and moves nothing |
| `Dive.UpUndoesDown` | 2021/Day_2_Dive/dive.cpp:42-49 | up and down by the same units cancel, in either order |
| `Dive.FollowClosedForm` | 2021/Day_2_Dive/dive.cpp:65-71 | after the commands the position has grown by the forward units, the aim by the down less the up units, and the depth by each forward's units times the aim at that moment |
| `Dive.UnknownIgnored` | 2021/Day_2_Dive/dive.cpp:68-70 | a command named other than forward, down or up changes nothing |
| `Dive.Part2ClosedForm` | 2021/Day_2_Dive/dive.cpp:63-73 | the answer is the total forward distance times the depth reached from aim 0 |
| `RockPaperScissors.GetSingleMoveResultIsCyclic` | 2022/Day2_RockPaperScissors/rock_paper_scissor.cpp:40-60 | the nine-case table is the cyclic rule: equal shapes draw and each shape beats the one before it |
| `RockPaperScissors.GetSingleMoveResult` | 2022/Day2_RockPaperScissors/rock_paper_scissor.cpp:40-60 | the result of a round is the cyclic rule applied to the two shapes the letters name |
| `RockPaperScissors.ResultAntisymmetric` | 2022/Day2_RockPaperScissors/rock_paper_scissor.cpp:40-60 | swapping the two players swaps a win and a loss and keeps a draw |
| `RockPaperScissors.MoveForRoundToReaches` | 2022/Day2_RockPaperScissors/rock_paper_scissor.cpp:62-87 | the chosen shape reaches the requested result against the opponent, and no other shape does |
| `RockPaperScissors.MoveForRoundTo` | 2022/Day2_RockPaperScissors/rock_paper_scissor.cpp:62-87 | the chosen shape gives the requested result against the opponent's shape |
| `RockPaperScissors.RoundScore1` | 2022/Day2_RockPaperScissors/rock_paper_scissor.cpp:115-119 | a round scores exactly when the second column is X, Y or Z (the map lookup throws otherwise), and then between 1 and 9 |
| `RockPaperScissors.RoundScore2` | 2022/Day2_RockPaperScissors/rock_paper_scissor.cpp:124-131 | a part 2 round scores exactly when the second column names an outcome, and then between 1 and 9 |
| `RockPaperScissors.RoundScore2IsPlayedShape` | 2022/Day2_RockPaperScissors/rock_paper_scissor.cpp:128-130 | the part 2 score is the shape score of the chosen shape plus the score of the result that shape really gets |
| `RockPaperScissors.TotalScore1` | 2022/Day2_RockPaperScissors/rock_paper_scissor.cpp:113-121 | a total over n rounds lies between n and 9 n |
| `RockPaperScissors.TotalScore2` | 2022/Day2_RockPaperScissors/rock_paper_scissor.cpp:123-133 | a part 2 total over n rounds lies between n and 9 n |
| `HistorianHysteria.DistanceSumNonNegative` | 2024/Day_1_Historian_Hysteria/day_1_historian_hysteria.cpp:55-57 | the summed distances are never negative, and zero for equal lists |
| `HistorianHysteria.TotalDistanceOfPermutations` | 2024/Day_1_Historian_Hysteria/day_1_historian_hysteria.cpp:51-58 | part 1 depends only on how often each id occurs in each list, not on their order |
| `HistorianHysteria.TotalDistanceOfSameIds` | 2024/Day_1_Historian_Hysteria/day_1_historian_hysteria.cpp:51-58 | part 1 is never negative, and zero when the lists hold the same ids equally often |
| `HistorianHysteria.Frequencies` | 2024/Day_1_Historian_Hysteria/day_1_historian_hysteria.cpp:62-72 | the table's keys are exactly the ids of the list, each mapped to its number of occurrences |
| `HistorianHysteria.SimilarityScore` | 2024/Day_1_Historian_Hysteria/day_1_historian_hysteria.cpp:60-82 | the sum over the left list of each id times its occurrences in the right list, an id absent on the right adding nothing |
| `HistorianHysteria.SimilarityOfDisjoint` | 2024/Day_1_Historian_Hysteria/day_1_historian_hysteria.cpp:73-80 | lists with no id in common score 0 |
| `CalorieCounting.Amounts` | 2022/Day1_CalorieCounting/calorie_counting.cpp:19 | the calorie amounts of a run of numeric lines, one per line |
| `CalorieCounting.TotalsOfRun` | 2022/Day1_CalorieCounting/calorie_counting.cpp:15-20 | a run of numbers closed by a blank line pushes the running sum plus the run's amounts, then starts again from 0 |
| `CalorieCounting.TotalsCount` | 2022/Day1_CalorieCounting/calorie_counting.cpp:15-20 | one total is pushed per blank line |
| `CalorieCounting.ElfTotalsCount` | 2022/Day1_CalorieCounting/calorie_counting.cpp:15-20 | with the empty read at the end of the file, one total more than there are blank lines |
| `CalorieCounting.Insert` | 2022/Day1_CalorieCounting/calorie_counting.cpp:21 | inserting into a descending list keeps it descending and adds exactly the one value |
| `CalorieCounting.SortDescending` | 2022/Day1_CalorieCounting/calorie_counting.cpp:21 | a descending rearrangement of the totals |
| `CalorieCounting.MostCaloriesIsMaximum` | 2022/Day1_CalorieCounting/calorie_counting.cpp:21-26 | part 1 is one of the totals and no total exceeds it |
| `CalorieCounting.TopThreeCaloriesAreLargest` | 2022/Day1_CalorieCounting/calorie_counting.cpp:21-29 | part 2 adds three of the totals, in descending order, with every other total at most the third |
| `RedNosedReports.Without` | 2024/Day_2_Red_Nosed_Reports/day_2_red_nosed_reports.cpp:58-60 | the report with level k removed: one shorter, the levels before k in place and those after shifted down |
| `RedNosedReports.BeforeStep` | 2024/Day_2_Red_Nosed_Reports/day_2_red_nosed_reports.cpp:45-52 | one more pass of the loop keeps a flag exactly when the new difference is between 1 and 3 in its direction |
| `RedNosedReports.BeforeAll` | 2024/Day_2_Red_Nosed_Reports/day_2_red_nosed_reports.cpp:45-53 | the flags after the loop say whether every adjacent pair decreases, or increases, by 1 to 3 |
| `RedNosedReports.IsSafe` | 2024/Day_2_Red_Nosed_Reports/day_2_red_nosed_reports.cpp:41-54 | true exactly when the report is safe; a report of at most one level is safe |
| `RedNosedReports.IndicesWithout` | 2024/Day_2_Red_Nosed_Reports/day_2_red_nosed_reports.cpp:58-60 | the index list with k erased holds every index but k, in order |
| `RedNosedReports.IsSafeWithout` | 2024/Day_2_Red_Nosed_Reports/day_2_red_nosed_reports.cpp:56-78 | the loop over the remaining indices is true exactly when the report without level k is safe |
| `RedNosedReports.IsSafeDampened` | 2024/Day_2_Red_Nosed_Reports/day_2_red_nosed_reports.cpp:80-91 | true exactly when removing some single level makes the report safe |
| `RedNosedReports.SafeKeepsSafeWithoutFirst` | 2024/Day_2_Red_Nosed_Reports/day_2_red_nosed_reports.cpp:98-102 | a safe report stays safe with its first level removed, so the dampener accepts it too |
| `RedNosedReports.PartsOrdered` | 2024/Day_2_Red_Nosed_Reports/day_2_red_nosed_reports.cpp:93-104 | no more reports are safe than dampened-safe, and no more of those than reports |
| `RedNosedReports.Part1` | 2024/Day_2_Red_Nosed_Reports/day_2_red_nosed_reports.cpp:93-96 | the number of safe reports |
| `RedNosedReports.Part2` | 2024/Day_2_Red_Nosed_Reports/day_2_red_nosed_reports.cpp:98-104 | the number of reports safe as they are or after removing one level |
| `TuningTrouble.CountPositive` | 2022/Day6_TuningTrouble/tuning_trouble.cpp:14-17 | a character of the window is counted at least once |
| `TuningTrouble.CountTwo` | 2022/Day6_TuningTrouble/tuning_trouble.cpp:14-17 | a character occurring at two positions is counted at least twice |
| `TuningTrouble.CountOnce` | 2022/Day6_TuningTrouble/tuning_trouble.cpp:14-17 | a character occurring at one position only is counted once |
| `TuningTrouble.CountAbsent` | 2022/Day6_TuningTrouble/tuning_trouble.cpp:14-17 | a character absent from the window has count 0 |
| `TuningTrouble.CountingDecidesDistinct` | 2022/Day6_TuningTrouble/tuning_trouble.cpp:10-19 | every count being 1 holds exactly when no two characters of the window are equal |
| `TuningTrouble.GetMarkerPosition` | 2022/Day6_TuningTrouble/tuning_trouble.cpp:21-33 | as written: the result is the data length or a start before `|data| - n`, so the last window is never examined; a start found begins a window of distinct characters and every start before it fails; the data length comes back only when no examined window is distinct |
| `TuningTrouble.ScanWritten` | 2022/Day6_TuningTrouble/tuning_trouble.cpp:24-31 | the loop from a given start: the data length, or the first qualifying start before the last window |
| `TuningTrouble.MarkerSkipsLastWindow` | 2022/Day6_TuningTrouble/tuning_trouble.cpp:24 | on `abcd` with n = 4 the only window is distinct, yet the program reports 8 where 4 is meant |
| `TuningTrouble.MarkerPosition` | 2022/Day6_TuningTrouble/tuning_trouble.cpp:21-33 | corrected: the loop also tries the last window; the result is at most the data length |
| `TuningTrouble.Scan` | 2022/Day6_TuningTrouble/tuning_trouble.cpp:24-31 | the corrected loop from a start: the data length, or a start at most length - n |
| `TuningTrouble.ScanFinds` | 2022/Day6_TuningTrouble/tuning_trouble.cpp:24-31 | the corrected loop stops at a marker, or at the data length when no window qualifies |
| `TuningTrouble.MarkerPositionIsFirstMarker` | 2022/Day6_TuningTrouble/tuning_trouble.cpp:21-33 | corrected: a marker is reported exactly when some window has distinct characters, and it is the first such window |
| `TuningTrouble.WrittenAgreesBeforeLast` | 2022/Day6_TuningTrouble/tuning_trouble.cpp:24-31 | when the first marker is not the last window, the program as written finds it too |
| `LanternFish.Newborn` | 2021/Day_6_Lantern_Fish/lantern.cpp:57-60 | a newborn fish counts at least itself |
| `LanternFish.FishCount` | 2021/Day_6_Lantern_Fish/lantern.cpp:47-64 | the count of one fish and its descendants is at least 1, and exactly 1 while the days do not pass its timer |
| `LanternFish.CalculateFishCountAfterNDays` | 2021/Day_6_Lantern_Fish/lantern.cpp:69-78 | the total over the initial fish, at least one per fish |
| `LanternFish.DayAppend` | 2021/Day_6_Lantern_Fish/lantern.cpp:57-60 | a day acts on each fish independently |
| `LanternFish.SimulateAppend` | 2021/Day_6_Lantern_Fish/lantern.cpp:76 | the school of two groups after n days is the two groups' schools side by side, so the total can add up fish one by one |
| `LanternFish.BirthsShift` | 2021/Day_6_Lantern_Fish/lantern.cpp:57-60 | the offspring count depends only on the days between the first spawn and the end |
| `LanternFish.FishCountAtZero` | 2021/Day_6_Lantern_Fish/lantern.cpp:53-60 | a fish at timer 0 becomes, a day later, a fish at 6 plus a newborn |
| `LanternFish.FishCountCountDown` | 2021/Day_6_Lantern_Fish/lantern.cpp:53-60 | a fish above 0 counts down: one day less and one timer less give the same count |
| `LanternFish.FishCountIsSimulation` | 2021/Day_6_Lantern_Fish/lantern.cpp:47-64 | the recurrence counts exactly the fish a day-by-day simulation of one fish yields |
| `LanternFish.TotalIsSimulation` | 2021/Day_6_Lantern_Fish/lantern.cpp:69-78 | the program's total is the size of the simulated school after n days |
| `CathodeRayTube.TickAligned` | 2022/Day10_Cathode-RayTube/cathode_ray_tube.cpp:41-48 | one cycle keeps the next sampled cycle the first one still to come, and adds cycle times X to the sum exactly when the cycle is 20 more than a multiple of 40 |
| `CathodeRayTube.StepMatches` | 2022/Day10_Cathode-RayTube/cathode_ray_tube.cpp:28-50 | one instruction takes as many cycles as X has values during it, ends with X after it, and adds the strengths of those cycles |
| `CathodeRayTube.RunMatchesTrace` | 2022/Day10_Cathode-RayTube/cathode_ray_tube.cpp:28-50 | running a program adds exactly the strengths of the sampled cycles of its trace of X, and ends with X raised by all the addx values |
| `CathodeRayTube.TraceLength` | 2022/Day10_Cathode-RayTube/cathode_ray_tube.cpp:31-41 | the trace has one entry per cycle: one for noop, two for addx |
| `CathodeRayTube.SignalStrengthSum` | 2022/Day10_Cathode-RayTube/cathode_ray_tube.cpp:19-53 | from X = 1 and cycle 20 the printed sum is the sum of cycle times X over cycles 20, 60, 100, ... of the trace |
| `ClawContraption.ParseLineOfShown` | 2024/Day_13_Claw_Contraption/day_13_2024.cpp:52-65 | a line of digit-free text around two numbers reads as those two numbers |
| `ClawContraption.ParseLine` | 2024/Day_13_Claw_Contraption/day_13_2024.cpp:52-65 | a line read as a point gives non-negative coordinates, since only digit runs are converted; a line with no digit is not read |
| `ClawContraption.StoiRun` | 2024/Day_13_Claw_Contraption/day_13_2024.cpp:52-65 | `stoi` of an empty digit run fails, and of a non-empty one gives a non-negative number |
| `ClawContraption.CramerNumerator` | 2024/Day_13_Claw_Contraption/day_13_2024.cpp:95 | at a solution, Cramer's numerator is the A press count times the determinant |
| `ClawContraption.MinimumCostFindsSolution` | 2024/Day_13_Claw_Contraption/day_13_2024.cpp:89-98 | when presses reaching the prize exist, the truncating divisions give exactly those presses |
| `ClawContraption.ValidIffReachable` | 2024/Day_13_Claw_Contraption/day_13_2024.cpp:89-104 | the computed presses pass the check exactly when some presses reach the prize |
| `ClawContraption.MachineCostOfSolution` | 2024/Day_13_Claw_Contraption/day_13_2024.cpp:113-118 | a machine whose shifted prize is reached by a and b presses adds 3a + b |
| `ClawContraption.MachineCostUnreachable` | 2024/Day_13_Claw_Contraption/day_13_2024.cpp:113-118 | a machine no presses can win adds nothing |
| `ClawContraption.Day13` | 2024/Day_13_Claw_Contraption/day_13_2024.cpp:106-121 | the sum over the machines, in order, of the cost of each one that can be won; 0 for no machines |
| `ClawContraption.TotalCostNonNegative` | 2024/Day_13_Claw_Contraption/day_13_2024.cpp:106-121 | with no machine adding a negative cost the total is not negative |
| `LinenLayout.CountAllPossibleWays` | 2024/Day_19_Linen_Layout/day_19_linen_layout.cpp:62-86 | the number of ways to cover the design from the index with the patterns, and the memo stays a table of correct counts |
| `LinenLayout.WaysViaPositive` | 2024/Day_19_Linen_Layout/day_19_linen_layout.cpp:75-81 | a positive count from the pattern loop comes from some matching pattern whose remainder can be covered |
| `LinenLayout.WaysViaAtLeast` | 2024/Day_19_Linen_Layout/day_19_linen_layout.cpp:75-81 | every matching pattern contributes the count of its remainder to the loop's total |
| `LinenLayout.LayoutOfPositiveWays` | 2024/Day_19_Linen_Layout/day_19_linen_layout.cpp:62-86 | a positive count yields an actual sequence of patterns spelling the rest of the design |
| `LinenLayout.WaysOfLayout` | 2024/Day_19_Linen_Layout/day_19_linen_layout.cpp:62-86 | a sequence of patterns spelling the rest of the design makes the count positive |
| `LinenLayout.WaysPositiveIffLayout` | 2024/Day_19_Linen_Layout/day_19_linen_layout.cpp:88-98 | the part 1 test: the count is positive exactly when the design can be made from the patterns |
| `LinenLayout.PossibleDesignsBound` | 2024/Day_19_Linen_Layout/day_19_linen_layout.cpp:88-110 | part 1 is at most the number of designs and at most part 2 |
| `LinenLayout.PossibleDesigns` | 2024/Day_19_Linen_Layout/day_19_linen_layout.cpp:88-98 | part 1 counts at most every design; it is 0 exactly when no design can be laid out, and counts every design exactly when each can |
| `LinenLayout.MakeableIffWays` | 2024/Day_19_Linen_Layout/day_19_linen_layout.cpp:88-98 | a design can be laid out exactly when its number of ways is positive |
| `LinenLayout.AllOrNoneCons` | 2024/Day_19_Linen_Layout/day_19_linen_layout.cpp:88-98 | all designs, or none, can be laid out exactly when that holds of the first and of the rest |
| `LinenLayout.Prepend` | 2024/Day_19_Linen_Layout/day_19_linen_layout.cpp:75-81 | each layout of the remainder, with the matched pattern put first |
| `LinenLayout.WaysCountsLayouts` | 2024/Day_19_Linen_Layout/day_19_linen_layout.cpp:62-86 | the number of ways is the number of listed layouts of the rest of the design |
| `LinenLayout.WaysViaCountsLayouts` | 2024/Day_19_Linen_Layout/day_19_linen_layout.cpp:75-81 | the pattern loop's partial sum counts the listed layouts starting with the patterns from that index on |
| `LinenLayout.LayoutsSound` | 2024/Day_19_Linen_Layout/day_19_linen_layout.cpp:62-86 | every listed layout spells the rest of the design |
| `LinenLayout.LayoutsViaSound` | 2024/Day_19_Linen_Layout/day_19_linen_layout.cpp:75-81 | every layout listed by the loop from an index spells the rest and starts with a pattern from that index on |
| `LinenLayout.LayoutsComplete` | 2024/Day_19_Linen_Layout/day_19_linen_layout.cpp:62-86 | every way to spell the rest of the design is listed |
| `LinenLayout.LayoutsViaComplete` | 2024/Day_19_Linen_Layout/day_19_linen_layout.cpp:75-81 | every spelling whose first pattern is from that index on is listed by the loop from there |
| `LinenLayout.LayoutsDistinct` | 2024/Day_19_Linen_Layout/day_19_linen_layout.cpp:62-86 | no layout is listed twice, so the count is exactly the number of distinct layouts |
| `LinenLayout.LayoutsViaDistinct` | 2024/Day_19_Linen_Layout/day_19_linen_layout.cpp:75-81 | the loop from an index lists no layout twice |
| `LinenLayout.Day19Part2` | 2024/Day_19_Linen_Layout/day_19_linen_layout.cpp:100-110 | the sum over the designs of their numbers of ways, the memo cleared per design |
| `LinenLayout.RemoveSpaces` | 2024/Day_19_Linen_Layout/day_19_linen_layout.cpp:52 | the line without its spaces: no space left, every other character kept exactly as often as it occurs (same multiset minus the spaces), and a line with no spaces comes back unchanged |
| `LinenLayout.RemoveSpacesAppend` | 2024/Day_19_Linen_Layout/day_19_linen_layout.cpp:52 | removing spaces from two pieces one after the other is removing them from the whole, so the kept characters stay in their order |
| `LinenLayout.RemoveSpacesFrom` | 2024/Day_19_Linen_Layout/day_19_linen_layout.cpp:52 | every character that survives the removal occurs in the line |
| `LinenLayout.RemoveSpacesOfListing` | 2024/Day_19_Linen_Layout/day_19_linen_layout.cpp:52 | a `, `-separated listing of space-free patterns loses exactly its spaces and becomes the patterns joined by commas |
| `LinenLayout.Patterns` | 2024/Day_19_Linen_Layout/day_19_linen_layout.cpp:51-56 | the patterns read from the first line hold neither commas nor spaces, and each of their characters occurs in the line |
| `LinenLayout.PatternsOfListing` | 2024/Day_19_Linen_Layout/day_19_linen_layout.cpp:51-56 | round trip: reading the line `p1, p2, ..., pn` of non-empty patterns free of commas and spaces gives back exactly `p1 .. pn`, in order |
| `LinenLayout.SplitKeeps` | 2024/Day_19_Linen_Layout/day_19_linen_layout.cpp:53-56 | every character of a split piece comes from the line |
| `PlutonianPebbles.DigitCount` | 2024/Day_11_Plutonian_Pebbles/day_11_lutonian_pebbles.cpp:54-57 | every number has at least one digit; 0 has one |
| `PlutonianPebbles.DigitCountBounds` | 2024/Day_11_Plutonian_Pebbles/day_11_lutonian_pebbles.cpp:54-57 | a number with d digits lies below 10^d and, unless 0, at or above 10^(d-1) |
| `PlutonianPebbles.DigitCountUnique` | 2024/Day_11_Plutonian_Pebbles/day_11_lutonian_pebbles.cpp:54-57 | those bounds determine the digit count |
| `PlutonianPebbles.DigitsDivMod` | 2024/Day_11_Plutonian_Pebbles/day_11_lutonian_pebbles.cpp:64-65 | quotient and remainder by 10^h put the number back together, the remainder below 10^h |
| `PlutonianPebbles.SplitNumberParts` | 2024/Day_11_Plutonian_Pebbles/day_11_lutonian_pebbles.cpp:59-68 | the left half times 10^(d/2) plus the right half is the number, the right half below 10^(d/2) |
| `PlutonianPebbles.SplitLeftHalf` | 2024/Day_11_Plutonian_Pebbles/day_11_lutonian_pebbles.cpp:59-68 | splitting a number of an even digit count leaves exactly half the digits on the left |
| `PlutonianPebbles.Rule` | 2024/Day_11_Plutonian_Pebbles/day_11_lutonian_pebbles.cpp:76-89 | a stone becomes two stones exactly when it is non-zero with an even digit count, otherwise one |
| `PlutonianPebbles.RuleCases` | 2024/Day_11_Plutonian_Pebbles/day_11_lutonian_pebbles.cpp:76-89 | 0 becomes 1, an even digit count splits into the two halves, anything else is multiplied by 2024 |
| `PlutonianPebbles.BlinkLength` | 2024/Day_11_Plutonian_Pebbles/day_11_lutonian_pebbles.cpp:73-90 | a blink adds one stone per stone that splits |
| `PlutonianPebbles.BlinkAppend` | 2024/Day_11_Plutonian_Pebbles/day_11_lutonian_pebbles.cpp:73-90 | stones change independently: blinking a row is blinking its parts |
| `PlutonianPebbles.BlinkPermutation` | 2024/Day_11_Plutonian_Pebbles/day_11_lutonian_pebbles.cpp:73-90 | the stones after a blink depend only on how many of each number there were, so a count table suffices |
| `PlutonianPebbles.BlinkRepeat` | 2024/Day_11_Plutonian_Pebbles/day_11_lutonian_pebbles.cpp:75-89 | c stones of one number become c copies of each stone of its rule |
| `PlutonianPebbles.MoveBlinks` | 2024/Day_11_Plutonian_Pebbles/day_11_lutonian_pebbles.cpp:75-89 | one table update takes c stones of a number away and adds the c blinked copies |
| `PlutonianPebbles.MoveSingle` | 2024/Day_11_Plutonian_Pebbles/day_11_lutonian_pebbles.cpp:75-79 | for 0 or an odd digit count the update moves the count onto 1 or onto the number times 2024 |
| `PlutonianPebbles.MoveSplit` | 2024/Day_11_Plutonian_Pebbles/day_11_lutonian_pebbles.cpp:80-85 | for an even digit count the update adds the count to both halves |
| `PlutonianPebbles.ProgressStep` | 2024/Day_11_Plutonian_Pebbles/day_11_lutonian_pebbles.cpp:73-90 | after each key of the loop the copy holds the untouched stones as they were and the handled ones blinked |
| `PlutonianPebbles.ProgressEnds` | 2024/Day_11_Plutonian_Pebbles/day_11_lutonian_pebbles.cpp:72-91 | the copy starts as the table and ends as the table of the blinked row |
| `PlutonianPebbles.ExecuteSingle` | 2024/Day_11_Plutonian_Pebbles/day_11_lutonian_pebbles.cpp:70-92 | the new table counts the stones after one blink of any row the old table counts |
| `PlutonianPebbles.BlinkTotal` | 2024/Day_11_Plutonian_Pebbles/day_11_lutonian_pebbles.cpp:70-92 | one blink adds to the total one stone per stone that splits |
| `PlutonianPebbles.WrittenCountsOnce` | 2024/Day_11_Plutonian_Pebbles/day_11_lutonian_pebbles.cpp:113-116 | as written, the starting table counts each number read once, however often it was read |
| `PlutonianPebbles.InitialConfigurationCounts` | 2024/Day_11_Plutonian_Pebbles/day_11_lutonian_pebbles.cpp:113-116 | corrected: incrementing the count per number read gives the multiset of the row |
| `PlutonianPebbles.CountStones` | 2024/Day_11_Plutonian_Pebbles/day_11_lutonian_pebbles.cpp:118-128 | from a table, n blinks give the number and the table of the stones of n blinks of any row it counts |
| `PlutonianPebbles.BlinkTimesStep` | 2024/Day_11_Plutonian_Pebbles/day_11_lutonian_pebbles.cpp:118-121 | n + 1 blinks are one more blink after n |
| `PlutonianPebbles.BlinkTimesPermutation` | 2024/Day_11_Plutonian_Pebbles/day_11_lutonian_pebbles.cpp:118-121 | the stones after n blinks depend only on the starting counts |
| `PlutonianPebbles.CountStonesAfterNIterationsWritten` | 2024/Day_11_Plutonian_Pebbles/day_11_lutonian_pebbles.cpp:109-129 | as written: the stone count after n blinks of the row with each distinct number once |
| `PlutonianPebbles.CountStonesAfterNIterations` | 2024/Day_11_Plutonian_Pebbles/day_11_lutonian_pebbles.cpp:109-129 | corrected: the number of stones after n blinks of the row read |
| `PlutonianPebbles.DuplicateStonesCollapse` | 2024/Day_11_Plutonian_Pebbles/day_11_lutonian_pebbles.cpp:113-116 | the row `1 1` starts, as written, with a table of one stone, where there are two |
| `PlutonianPebbles.RemoveStonesZeroCount` | 2024/Day_11_Plutonian_Pebbles/day_11_lutonian_pebbles.cpp:94-107 | exactly the entries of positive count survive, with their counts |
| `PacketDecoder.BitsToNatOfNatToBits` | 2021/Day_16_Packet_Decoder/packet_decoder.cpp:210-215 | a value below 2^w written in w bits reads back as itself |
| `PacketDecoder.NatToBitsOfBitsToNat` | 2021/Day_16_Packet_Decoder/packet_decoder.cpp:210-215 | a bit string is the w-bit writing of the value it reads as |
| `PacketDecoder.BitsToNatAppend` | 2021/Day_16_Packet_Decoder/packet_decoder.cpp:249-260 | reading a concatenation shifts the first part's value by the second's width |
| `PacketDecoder.HexDigitValue` | 2021/Day_16_Packet_Decoder/packet_decoder.cpp:124-130 | exactly the digits 0-9 and A-F have a value, below 16 |
| `PacketDecoder.HexToBits` | 2021/Day_16_Packet_Decoder/packet_decoder.cpp:122-137 | the conversion succeeds exactly when every character is a hex digit (the table lookup throws otherwise), giving four bits per digit, digit i at bits 4i to 4i + 3 |
| `PacketDecoder.HexToBitsValue` | 2021/Day_16_Packet_Decoder/packet_decoder.cpp:122-137 | the bits of a hex string read as the number the string denotes |
| `PacketDecoder.FetchLiteralGroups` | 2021/Day_16_Packet_Decoder/packet_decoder.cpp:230-240 | the groups read are five bits each, every one but the last flagged 1, and lie in a row from the start |
| `PacketDecoder.FetchLiteralGroupsOfFlatten` | 2021/Day_16_Packet_Decoder/packet_decoder.cpp:230-240 | well-formed groups lying in a row are read back exactly |
| `PacketDecoder.LiteralGroups` | 2021/Day_16_Packet_Decoder/packet_decoder.cpp:230-240 | the groups writing a value: five bits each, all flagged except the last |
| `PacketDecoder.ConvertLiteralGroupsOfLiteralGroups` | 2021/Day_16_Packet_Decoder/packet_decoder.cpp:249-260 | the payload bits of the groups writing a value read back as that value |
| `PacketDecoder.Field` | 2021/Day_16_Packet_Decoder/packet_decoder.cpp:210-215 | a w-bit field is below 2^w |
| `PacketDecoder.ParsePacket` | 2021/Day_16_Packet_Decoder/packet_decoder.cpp:145-202 | a packet parsed from a position ends within the bits and at least six bits later |
| `PacketDecoder.ParseByLength` | 2021/Day_16_Packet_Decoder/packet_decoder.cpp:166-183 | the length-framed loop ends within the bits |
| `PacketDecoder.ParseByCount` | 2021/Day_16_Packet_Decoder/packet_decoder.cpp:184-199 | the count-framed loop ends within the bits |
| `PacketDecoder.ParsePacketFields` | 2021/Day_16_Packet_Decoder/packet_decoder.cpp:145-202 | a parsed packet has the version and type of its first six bits; it is a literal exactly for type 4, read from its groups; otherwise its children are parsed by the 15-bit length or the 11-bit count as the length type bit says |
| `PacketDecoder.ParseByLengthConsumed` | 2021/Day_16_Packet_Decoder/packet_decoder.cpp:175-182 | the length loop consumes at least the announced length and six bits per child, and nothing for a length of 0 |
| `PacketDecoder.ParseByCountConsumed` | 2021/Day_16_Packet_Decoder/packet_decoder.cpp:192-198 | the count loop yields exactly the announced number of children |
| `PacketDecoder.ParsedWellTyped` | 2021/Day_16_Packet_Decoder/packet_decoder.cpp:145-202 | every parsed tree has 3-bit versions and types and literals exactly at type 4 |
| `PacketDecoder.Decode` | 2021/Day_16_Packet_Decoder/packet_decoder.cpp:109-114 | a decoded string is all hex digits, and the tree it yields is well typed |
| `PacketDecoder.Encode` | 2021/Day_16_Packet_Decoder/packet_decoder.cpp:145-202 | the bits of a packet hold at least its six-bit header |
| `PacketDecoder.ParseEncode` | 2021/Day_16_Packet_Decoder/packet_decoder.cpp:145-202 | parsing the encoding of any encodable packet, in either framing, gives back the packet and ends right after it |
| `PacketDecoder.ParseEncodeByLength` | 2021/Day_16_Packet_Decoder/packet_decoder.cpp:166-183 | the length loop over encoded children gives back the children |
| `PacketDecoder.ParseEncodeByCount` | 2021/Day_16_Packet_Decoder/packet_decoder.cpp:184-199 | the count loop over encoded children gives back the children |
| `PacketDecoder.DecodeEncoded` | 2021/Day_16_Packet_Decoder/packet_decoder.cpp:109-114 | a hex string whose bits begin with the encoding of a packet decodes to that packet |
| `PacketDecoder.Packets` | 2021/Day_16_Packet_Decoder/packet_decoder.cpp:270-274 | the packets of a tree, the root first |
| `PacketDecoder.VersionSumIsSumOfVersions` | 2021/Day_16_Packet_Decoder/packet_decoder.cpp:270-274 | part 1 is the sum of the versions of every packet of the tree |
| `PacketDecoder.Min` | 2021/Day_16_Packet_Decoder/packet_decoder.cpp:312-316 | the least value, one of the values |
| `PacketDecoder.Max` | 2021/Day_16_Packet_Decoder/packet_decoder.cpp:317-321 | the greatest value, one of the values |
| `PacketDecoder.Eval` | 2021/Day_16_Packet_Decoder/packet_decoder.cpp:281-289 | a literal evaluates to its value |
| `PacketDecoder.EvalArithmetic` | 2021/Day_16_Packet_Decoder/packet_decoder.cpp:290-311 | type 0 is the sum and type 1 the product of the sub-packet values |
| `PacketDecoder.EvalMinMax` | 2021/Day_16_Packet_Decoder/packet_decoder.cpp:312-321 | types 2 and 3 give the value of a sub-packet that no other sub-packet's value is below, or above |
| `PacketDecoder.EvalCompare` | 2021/Day_16_Packet_Decoder/packet_decoder.cpp:322-345 | types 5, 6 and 7 give 1 exactly when the first sub-packet's value is greater than, less than or equal to the second's, else 0; higher types give 0 |
| `PacketDecoder.EvalAll` | 2021/Day_16_Packet_Decoder/packet_decoder.cpp:281-347 | the value of each sub-packet, in order |
| `Common.Split` | 2024/Day_7_Bridge_Repair/day_7_bridge_repair.cpp:46-54 | the tokens of repeated `getline` with a delimiter hold no delimiter, and there are none exactly for the empty string |
| `Common.SplitJoin` | 2024/Day_7_Bridge_Repair/day_7_bridge_repair.cpp:46-54 | splitting delimiter-joined non-empty tokens without delimiters gives back those tokens in order |
| `Common.JoinSplit` | 2024/Day_7_Bridge_Repair/day_7_bridge_repair.cpp:46-54 | joining the tokens with the delimiter gives back the string, minus a trailing delimiter |
| `Common.SortAscending` | 2024/Day_1_Historian_Hysteria/day_1_historian_hysteria.cpp:53-54 | `std::sort`: an ascending rearrangement of the list |
| `Common.SortedUnique` | 2024/Day_1_Historian_Hysteria/day_1_historian_hysteria.cpp:53-54 | two ascending rearrangements of the same values are equal, so the sort's result does not depend on the algorithm |
| `Common.SortAscendingOfPermutation` | 2024/Day_1_Historian_Hysteria/day_1_historian_hysteria.cpp:53-54 | rearranging the input does not change the sorted list |
| `Decimal.StoiShowInt` | 2022/Day1_CalorieCounting/calorie_counting.cpp:19 | `stoi` reads any integer written in decimal back, whatever non-digit text follows |
| `Decimal.StoiDigits` | 2024/Day_13_Claw_Contraption/day_13_2024.cpp:61-62 | `stoll` of a run of digits is the number they spell |
| `Decimal.StoiEmpty` | 2024/Day_13_Claw_Contraption/day_13_2024.cpp:61-62 | `stoll` of an empty run throws |
| `Decimal.ShowNatValue` | 2024/Day_7_Bridge_Repair/day_7_bridge_repair.cpp:115 | a natural number written in decimal has the value it was written from |
| `GardenGroups.Contains` | 2024/Day_12_Garden_Groups/day_12_garden_groups.cpp:51-55 | true exactly when the value occurs in the list |
| `GardenGroups.Cells` | 2024/Day_12_Garden_Groups/day_12_garden_groups.cpp:109 | the visited table covers exactly the cells of the square of side the row count |
| `GardenGroups.NeighbourAdjacent` | 2024/Day_12_Garden_Groups/day_12_garden_groups.cpp:66-70 | each of the four offsets leads to a cell one step up, left, right or down |
| `GardenGroups.DirTo` | 2024/Day_12_Garden_Groups/day_12_garden_groups.cpp:66-70 | every cell one step away is reached by one of the four offsets |
| `GardenGroups.ConnectedPrepend` | 2024/Day_12_Garden_Groups/day_12_garden_groups.cpp:79-86 | a same-plant step in front of a same-plant path is a same-plant path |
| `GardenGroups.ClosedForward` | 2024/Day_12_Garden_Groups/day_12_garden_groups.cpp:79-86 | a cell set closed under same-plant steps contains the end of every same-plant path that starts in it |
| `GardenGroups.ClosedBackward` | 2024/Day_12_Garden_Groups/day_12_garden_groups.cpp:79-86 | such a set also contains the start of every same-plant path that ends in it |
| `GardenGroups.ExploreRegion` | 2024/Day_12_Garden_Groups/day_12_garden_groups.cpp:64-90 | the flood fill lists its start first, each cell once, exactly the cells it newly marks visited; every listed cell has the start's plant and is joined to it by same-plant steps, and every same-plant neighbour of a listed cell ends up visited |
| `GardenGroups.ExploreFrom` | 2024/Day_12_Garden_Groups/day_12_garden_groups.cpp:76-88 | the loop over the offsets from the m-th on keeps those facts and leaves every same-plant neighbour in the remaining directions visited |
| `GardenGroups.JoinSubregion` | 2024/Day_12_Garden_Groups/day_12_garden_groups.cpp:84-85 | appending the sub-region explored from a neighbour to the rest keeps the region's cells distinct, same-plant and connected |
| `GardenGroups.ExploredClosed` | 2024/Day_12_Garden_Groups/day_12_garden_groups.cpp:64-90 | after a fill from a closed visited set, the visited set is again closed under same-plant steps |
| `GardenGroups.RegionIsComponent` | 2024/Day_12_Garden_Groups/day_12_garden_groups.cpp:64-90 | the region explored from an unvisited cell is exactly its same-plant connected component |
| `GardenGroups.Scan` | 2024/Day_12_Garden_Groups/day_12_garden_groups.cpp:111-121 | the row-major scan from a cell yields regions that are components, together holding every unvisited cell exactly once |
| `GardenGroups.ScanStep` | 2024/Day_12_Garden_Groups/day_12_garden_groups.cpp:115-118 | pushing a region before the regions found later keeps the cells distinct |
| `GardenGroups.FindRegions` | 2024/Day_12_Garden_Groups/day_12_garden_groups.cpp:107-124 | the regions partition the square: every cell lies in exactly one, and each is a same-plant connected component |
| `GardenGroups.CellPerimeter` | 2024/Day_12_Garden_Groups/day_12_garden_groups.cpp:98-101 | a cell adds at most four fence segments |
| `GardenGroups.CellPerimeterCountsSides` | 2024/Day_12_Garden_Groups/day_12_garden_groups.cpp:92-105 | on a component, the four plant tests count exactly the sides of the cell that face no cell of its region |
| `GardenGroups.GetPerimeterPoints` | 2024/Day_12_Garden_Groups/day_12_garden_groups.cpp:138-155 | the corner count of a region is at most four per cell, since each diagonal of a cell gives an outer or an inner corner but not both |
| `GardenGroups.PerimeterIsFence` | 2024/Day_12_Garden_Groups/day_12_garden_groups.cpp:92-105 | the perimeter of a region is the number of its cell sides facing away from it |
| `GardenGroups.PriceIsFencePrice` | 2024/Day_12_Garden_Groups/day_12_garden_groups.cpp:126-136 | part 1's price over components is the sum of area times fence length |
| `GardenGroups.Day12Part1` | 2024/Day_12_Garden_Groups/day_12_garden_groups.cpp:126-136 | part 1 is the sum, over the regions of the partition, of area times the number of cell sides facing out of the region |
| `GardenGroups.CellCorners` | 2024/Day_12_Garden_Groups/day_12_garden_groups.cpp:142-151 | a cell contributes at most four corners |
| `GardenGroups.Corners` | 2024/Day_12_Garden_Groups/day_12_garden_groups.cpp:138-155 | a list of cells has at most four corners per cell |
| `GardenGroups.SingleCellCorners` | 2024/Day_12_Garden_Groups/day_12_garden_groups.cpp:138-155 | a lone cell has four corners, so a single-cell region has four sides |
| `GardenGroups.DominoCorners` | 2024/Day_12_Garden_Groups/day_12_garden_groups.cpp:138-155 | two cells side by side have four corners |
| `GardenGroups.ElbowCorners` | 2024/Day_12_Garden_Groups/day_12_garden_groups.cpp:138-155 | an L of three cells has six corners |
| `GardenGroups.BulkPriceBound` | 2024/Day_12_Garden_Groups/day_12_garden_groups.cpp:157-175 | the bulk price never exceeds four times the sum of the squared areas |
| `GardenGroups.Day12Part2` | 2024/Day_12_Garden_Groups/day_12_garden_groups.cpp:157-175 | part 2 over the partition is at most four times the sum of the squared region areas |
| `Chiton.Cell` | 2021/Day_15_Chiton/day_15_chiton.cpp:98-105 | a cell of the grid as read exists exactly when its row and column are inside that row |
| `Chiton.ReadInput` | 2021/Day_15_Chiton/day_15_chiton.cpp:168-181 | one grid row per line of the input |
| `Chiton.ReadDigits` | 2021/Day_15_Chiton/day_15_chiton.cpp:168-181 | each character of a digit line becomes that digit's risk; lines of one length give a rectangular grid |
| `Chiton.At` | 2021/Day_15_Chiton/day_15_chiton.cpp:136-153 | the scaled grid yields a risk only inside its scaled bounds |
| `Chiton.Rem` | 2021/Day_15_Chiton/day_15_chiton.cpp:142-147 | the position inside a tile is below the tile size |
| `Chiton.QuotBelow` | 2021/Day_15_Chiton/day_15_chiton.cpp:142-147 | a position inside k tiles lies in a tile numbered below k |
| `Chiton.QuotFirst` | 2021/Day_15_Chiton/day_15_chiton.cpp:142-147 | positions inside the first tile are tile 0 and keep their offset |
| `Chiton.WrapRule` | 2021/Day_15_Chiton/day_15_chiton.cpp:148-151 | adding a tile shift of up to 8 to a risk of 1 to 9 and subtracting 9 when above 9 gives the wrapped risk, again 1 to 9 |
| `Chiton.TileBelow` | 2021/Day_15_Chiton/day_15_chiton.cpp:136-147 | a position inside the scaled grid has a non-empty original and tile numbers below the scale |
| `Chiton.ScaledRule` | 2021/Day_15_Chiton/day_15_chiton.cpp:136-153 | a scaled cell is the original cell at the same offset raised by the sum of its tile numbers, wrapped back into 1 to 9 |
| `Chiton.ScaledFirstTile` | 2021/Day_15_Chiton/day_15_chiton.cpp:136-153 | the top-left tile of the scaled grid is the grid as read |
| `Chiton.ScaledOutside` | 2021/Day_15_Chiton/day_15_chiton.cpp:138-141 | a position beyond the scaled bounds throws |
| `Chiton.ScaledComplete` | 2021/Day_15_Chiton/day_15_chiton.cpp:120-161 | a rectangular grid scaled by any factor can be read at every position inside its bounds |
| `Chiton.PlainComplete` | 2021/Day_15_Chiton/day_15_chiton.cpp:87-114 | a rectangular grid can be read at every position inside its bounds |
| `Chiton.ScaledNonNegative` | 2021/Day_15_Chiton/day_15_chiton.cpp:120-161 | digit risks stay non-negative in the plain and the scaled grid |
| `Chiton.ScaledDigits` | 2021/Day_15_Chiton/day_15_chiton.cpp:136-153 | for scales up to 5, every scaled risk of a digit grid is a digit |
| `Chiton.StartReachable` | 2021/Day_15_Chiton/day_15_chiton.cpp:211 | the top-left cell is reached at cost 0, since its own risk is not counted |
| `Chiton.ExtendReach` | 2021/Day_15_Chiton/day_15_chiton.cpp:228-238 | a cell reached at cost c lets each readable neighbour be reached at c plus that neighbour's risk |
| `Chiton.PathRiskNonNegative` | 2021/Day_15_Chiton/day_15_chiton.cpp:191-242 | the risk of a walk over non-negative cells is non-negative |
| `Chiton.PathRiskPrefix` | 2021/Day_15_Chiton/day_15_chiton.cpp:191-242 | on non-negative cells, a prefix of a walk never costs more than the walk |
| `Chiton.LowestUnique` | 2021/Day_15_Chiton/day_15_chiton.cpp:191-242 | the lowest total risk to the bottom-right cell is unique |
| `Chiton.SingleCell` | 2021/Day_15_Chiton/day_15_chiton.cpp:218-223 | a one-cell grid has lowest total risk 0 |
| `Chiton.PathPrefix` | 2021/Day_15_Chiton/day_15_chiton.cpp:204-208 | a prefix of a walk of orthogonal steps is again such a walk |
| `Chiton.StaircasePath` | 2021/Day_15_Chiton/day_15_chiton.cpp:191-242 | on a complete grid with risks at most hi there is a walk to the bottom right costing at most hi times (rows plus columns) |
| `Chiton.StepTo` | 2021/Day_15_Chiton/day_15_chiton.cpp:204-208 | one more orthogonal step to a cell of risk at most hi extends a walk and raises its bound by hi |
| `ChitonSearch.Relax` | 2021/Day_15_Chiton/day_15_chiton.cpp:228-238 | relaxing one neighbour throws exactly when that neighbour is inside the bounds but cannot be read; otherwise the distance table keeps its shape |
| `ChitonSearch.LeastExists` | 2021/Day_15_Chiton/day_15_chiton.cpp:216-217 | a non-empty heap has an entry of least cost to pop |
| `ChitonSearch.Start` | 2021/Day_15_Chiton/day_15_chiton.cpp:211-213 | the initial distance table has one entry per cell |
| `ChitonSearch.StartInv` | 2021/Day_15_Chiton/day_15_chiton.cpp:211-213 | the search invariant holds with only the start cell queued at cost 0 and every other distance at LLONG_MAX |
| `ChitonSearch.PopStart` | 2021/Day_15_Chiton/day_15_chiton.cpp:214-227 | popping a least entry that is not the target starts expanding its cell with the invariant intact |
| `ChitonSearch.ExpandSteps` | 2021/Day_15_Chiton/day_15_chiton.cpp:228-238 | relaxing the remaining neighbours keeps the invariant and never raises a distance |
| `ChitonSearch.ExpandFails` | 2021/Day_15_Chiton/day_15_chiton.cpp:228-238 | a relaxation that throws shows the field has an unreadable cell inside its bounds |
| `ChitonSearch.DistAlongPath` | 2021/Day_15_Chiton/day_15_chiton.cpp:212-238 | while earlier cells of a walk are settled, the recorded distance of the next cell is at most the walk's risk to it |
| `ChitonSearch.FrontierReach` | 2021/Day_15_Chiton/day_15_chiton.cpp:214-240 | any walk to the target cheaper than LLONG_MAX leaves a queued entry no dearer than it |
| `ChitonSearch.Found` | 2021/Day_15_Chiton/day_15_chiton.cpp:218-223 | the first time a least entry for the target is popped, its cost is the lowest total risk |
| `ChitonSearch.EmptyQueue` | 2021/Day_15_Chiton/day_15_chiton.cpp:214-241 | a heap that runs dry leaves no walk to the target cheaper than LLONG_MAX |
| `ChitonSearch.Pop` | 2021/Day_15_Chiton/day_15_chiton.cpp:214-240 | one iteration either returns the lowest total risk, throws on an incomplete field, or continues with the invariant and a smaller distance sum or a shorter heap |
| `ChitonSearch.MinimumCostPath` | 2021/Day_15_Chiton/day_15_chiton.cpp:191-242 | undefined on an empty grid and when a read throws; otherwise returns the lowest total risk, or 0 only when no walk is cheaper than LLONG_MAX |
| `ChitonSearch.LowestTotalRisk` | 2021/Day_15_Chiton/day_15_chiton.cpp:191-242 | on a complete field whose walks stay below LLONG_MAX the search returns the lowest total risk |
| `ChitonSearch.Solve` | 2021/Day_15_Chiton/day_15_chiton.cpp:244-251 | an empty input leaves both parts undefined; a proper input gives the lowest total risk of the grid as read and of the grid scaled by 5 |
| `Polymerization.ParseRuleOfLine` | 2021/Day_14_Extended_Polymerization/day14_extended_polymerization.cpp:38-40 | a line `AB -> C` reads as the pair (A, B) with the inserted letter C |
| `Polymerization.Rules` | 2021/Day_14_Extended_Polymerization/day14_extended_polymerization.cpp:36-42 | the pair of every rule line is in the table |
| `Polymerization.RulesLastWins` | 2021/Day_14_Extended_Polymerization/day14_extended_polymerization.cpp:36-42 | when a pair has several lines, the last one decides its letter |
| `Polymerization.Pairs` | 2021/Day_14_Extended_Polymerization/day14_extended_polymerization.cpp:55-59 | a template of n >= 1 letters has n - 1 adjacent pairs, a shorter one none |
| `Polymerization.Insert` | 2021/Day_14_Extended_Polymerization/day14_extended_polymerization.cpp:61-80 | one step on the polymer itself keeps the first letter and puts a letter between every two, giving 2n - 1 letters |
| `Polymerization.InsertTimesNext` | 2021/Day_14_Extended_Polymerization/day14_extended_polymerization.cpp:61-81 | n steps are one step followed by n - 1 more, and fail once a step fails |
| `Polymerization.InsertTimesZero` | 2021/Day_14_Extended_Polymerization/day14_extended_polymerization.cpp:61 | zero steps leave the template |
| `Polymerization.StepPairs` | 2021/Day_14_Extended_Polymerization/day14_extended_polymerization.cpp:63-80 | the pair step succeeds exactly when every pair has a rule (`.at` throws otherwise) and doubles the number of pairs |
| `Polymerization.StepPairsOfInsert` | 2021/Day_14_Extended_Polymerization/day14_extended_polymerization.cpp:61-80 | the pair step succeeds exactly when the polymer step does, and then yields the pairs of the new polymer; the new letter counts are the old ones plus the inserted letters |
| `Polymerization.InsertTimesSize` | 2021/Day_14_Extended_Polymerization/day14_extended_polymerization.cpp:49-80 | after n steps the polymer has 2^n times the template's pairs and one letter more than it has pairs |
| `Polymerization.LetterCountsOfTemplate` | 2021/Day_14_Extended_Polymerization/day14_extended_polymerization.cpp:49-53 | the letter table built from the template counts each letter as often as it occurs |
| `Polymerization.MostCommon` | 2021/Day_14_Extended_Polymerization/day14_extended_polymerization.cpp:83-86 | the chosen letter occurs and no letter occurs more often |
| `Polymerization.LeastCommon` | 2021/Day_14_Extended_Polymerization/day14_extended_polymerization.cpp:83-87 | the chosen letter occurs and no letter occurs less often |
| `Polymerization.ApplyPolymerInsertionRules` | 2021/Day_14_Extended_Polymerization/day14_extended_polymerization.cpp:46-89 | undefined exactly when some step meets a pair without a rule; otherwise the count of the most common letter of the polymer after n steps minus that of the least common |
| `PrintQueue.ShowIntNoPipe` | 2024/Day_5_Print_Queue/day_5_print_queue.cpp:44 | a written number holds no pipe, so the pipe found is the separator |
| `PrintQueue.ParseRuleOfShown` | 2024/Day_5_Print_Queue/day_5_print_queue.cpp:42-47 | a rule line of two numbers around a pipe reads back as that pair |
| `PrintQueue.ParseAll` | 2024/Day_5_Print_Queue/day_5_print_queue.cpp:50-58 | an update line is read exactly when every token is a number (`stoi` throws otherwise), one number per token |
| `PrintQueue.ParseUpdate` | 2024/Day_5_Print_Queue/day_5_print_queue.cpp:50-58 | an update line is read when every comma-separated token is a number; then it holds one number per token, each the token's `stoi` value |
| `PrintQueue.CreateGraphMeans` | 2024/Day_5_Print_Queue/day_5_print_queue.cpp:62-70 | page b is listed after page a exactly when (a, b) is one of the rules |
| `PrintQueue.IsValidOrdering` | 2024/Day_5_Print_Queue/day_5_print_queue.cpp:73-93 | an update is valid exactly when no page is preceded by a page its rules put after it |
| `PrintQueue.Day5Part1` | 2024/Day_5_Print_Queue/day_5_print_queue.cpp:95-107 | sums the middle pages of the valid updates |
| `PrintQueue.InsertBy` | 2024/Day_5_Print_Queue/day_5_print_queue.cpp:116-125 | inserting a page keeps every page and adds it once |
| `PrintQueue.SortBy` | 2024/Day_5_Print_Queue/day_5_print_queue.cpp:116-125 | reordering by the rules is a permutation of the update |
| `PrintQueue.StrictOnSub` | 2024/Day_5_Print_Queue/day_5_print_queue.cpp:116-125 | a rule order that is asymmetric and transitive on an update stays so on any part of it |
| `PrintQueue.TotalOnSub` | 2024/Day_5_Print_Queue/day_5_print_queue.cpp:116-125 | a rule order that relates every two pages of an update does so on any part of it |
| `PrintQueue.InsertFrontValid` | 2024/Day_5_Print_Queue/day_5_print_queue.cpp:116-125 | a page its rules put before the head of a valid update can go in front of it |
| `PrintQueue.InsertLaterValid` | 2024/Day_5_Print_Queue/day_5_print_queue.cpp:116-125 | a page not put before the head can be inserted into the rest without breaking validity |
| `PrintQueue.InsertByValid` | 2024/Day_5_Print_Queue/day_5_print_queue.cpp:116-125 | inserting a page into a valid update under a strict rule order keeps it valid |
| `PrintQueue.SortByValid` | 2024/Day_5_Print_Queue/day_5_print_queue.cpp:116-125 | under a strict rule order the reordered update is valid |
| `PrintQueue.ValidOrderTail` | 2024/Day_5_Print_Queue/day_5_print_queue.cpp:73-93 | dropping the first page of a valid update keeps it valid |
| `PrintQueue.ValidOrderHead` | 2024/Day_5_Print_Queue/day_5_print_queue.cpp:116-126 | two valid orders of the same pages under a total rule order start with the same page |
| `PrintQueue.ValidOrderUnique` | 2024/Day_5_Print_Queue/day_5_print_queue.cpp:116-126 | under a total rule order there is only one valid order of a set of pages, so the middle page after reordering is determined |
| `PrintQueue.SortByOfValid` | 2024/Day_5_Print_Queue/day_5_print_queue.cpp:109-126 | reordering an already valid update under a strict total rule order changes nothing |
| `PrintQueue.Day5Part2` | 2024/Day_5_Print_Queue/day_5_print_queue.cpp:109-130 | sums the middle pages of the invalid updates after reordering them by the rules |
| `Venture.NextRun` | 2021/Day_5_venture/venture.cpp:31-44 | each extraction advances past at least one character and never beyond the end |
| `Venture.NextRunOf` | 2021/Day_5_venture/venture.cpp:35-39 | with no digit before a number, the extraction finds that number and resumes right after it |
| `Venture.IntendedCons` | 2021/Day_5_venture/venture.cpp:31-44 | the corrected reader yields the first number of the text and then reads the rest |
| `Venture.IntendedNoDigits` | 2021/Day_5_venture/venture.cpp:31-44 | the corrected reader yields nothing from a text without digits |
| `Venture.AsWrittenCons` | 2021/Day_5_venture/venture.cpp:31-44 | the program's reader yields the first number and then reads the rest with that number as the last value |
| `Venture.AsWrittenNoDigits` | 2021/Day_5_venture/venture.cpp:31-44 | on a non-empty text without digits the program's reader still reports success and yields the previous value again |
| `Venture.TrailingNewlineRepeats` | 2021/Day_5_venture/venture.cpp:82-89 | a number followed by a newline is read twice by the program and once by the corrected reader |
| `Venture.Points` | 2021/Day_5_venture/venture.cpp:137-142 | numbers pair up into half as many points |
| `Venture.Lines` | 2021/Day_5_venture/venture.cpp:143-148 | points pair up into half as many lines |
| `Venture.Segments` | 2021/Day_5_venture/venture.cpp:136-148 | four numbers per line |
| `Venture.PointsCons` | 2021/Day_5_venture/venture.cpp:139-142 | the first two numbers form the first point |
| `Venture.LinesCons` | 2021/Day_5_venture/venture.cpp:145-148 | the first two points form the first line |
| `Venture.SegmentsMeans` | 2021/Day_5_venture/venture.cpp:136-148 | the lines are the points paired up |
| `Venture.SegmentsCons` | 2021/Day_5_venture/venture.cpp:136-148 | the first four numbers form the first line |
| `Venture.SegmentsAt` | 2021/Day_5_venture/venture.cpp:136-148 | line k is made of numbers 4k to 4k + 3 |
| `Venture.SegmentsInside` | 2021/Day_5_venture/venture.cpp:154-156 | every line lies inside the square sized one past the largest number |
| `Venture.IsDiagonalMeans` | 2021/Day_5_venture/venture.cpp:69-72 | under integer division the program's diagonal test holds exactly when the horizontal distance is at least the vertical one and less than twice it |
| `Venture.IsDiagonalTooWide` | 2021/Day_5_venture/venture.cpp:69-72 | the program accepts (0,0)-(3,2), which is not at 45 degrees; every 45-degree line is accepted |
| `Venture.IsDiagonal` | 2021/Day_5_venture/venture.cpp:69-72 | for a line that is not horizontal, the test holds exactly when the vertical distance is at most the horizontal one and the horizontal one is less than twice the vertical one |
| `Venture.ReadIntegers` | 2021/Day_5_venture/venture.cpp:31-89 | at most one number per character of text, and at least one on non-empty text, because every extraction while text remains reports success |
| `Venture.KeptLines` | 2021/Day_5_venture/venture.cpp:149-153 | exactly the vertical, horizontal and accepted diagonal lines are kept, in order |
| `Venture.DiagonalIntendedEnds` | 2021/Day_5_venture/venture.cpp:113-129 | a 45-degree line is walked from one end to the other, both ends included |
| `Venture.Bump` | 2021/Day_5_venture/venture.cpp:101 | one cell goes up by one, the others stay |
| `Venture.DrawColumns` | 2021/Day_5_venture/venture.cpp:95-103 | a line of equal x adds one to every cell of its row between the two y values |
| `Venture.DrawRows` | 2021/Day_5_venture/venture.cpp:104-112 | a line of equal y adds one to every cell of its column between the two x values |
| `Venture.DiagonalWalk` | 2021/Day_5_venture/venture.cpp:115-125 | the walk stops after the number of steps the line allows, and every step stays between the two ends |
| `Venture.DrawDiagonal` | 2021/Day_5_venture/venture.cpp:113-129 | adds one to exactly the cells the stepping loop visits |
| `Venture.DrawLineOnGrid` | 2021/Day_5_venture/venture.cpp:93-130 | adds one to exactly the cells the line covers |
| `Venture.DrawLines` | 2021/Day_5_venture/venture.cpp:156-160 | each cell ends up counting the lines covering it |
| `Venture.CountRow` | 2021/Day_5_venture/venture.cpp:165 | counts the cells of a row that are at least 2 |
| `Venture.RowOverlapsCount` | 2021/Day_5_venture/venture.cpp:162-166 | the cells of a row covered at least twice are the row's entries of at least 2 |
| `Venture.CountOverlaps` | 2021/Day_5_venture/venture.cpp:149-166 | counts the cells covered by at least two of the kept lines |
| `Venture.MaxOf` | 2021/Day_5_venture/venture.cpp:154 | the largest number read |
| `Venture.Day5` | 2021/Day_5_venture/venture.cpp:136-167 | the number of cells of the square grid covered by two or more kept lines |
| `SupplyStack.Tokenize` | 2022/Day5_SupplyStack/supply_stack.cpp:12-26 | a drawing row of length 4m-1 yields m tokens, the k-th being the character at position 4k+1 (the crate letter or a space) |
| `SupplyStack.StackTop` | 2022/Day5_SupplyStack/supply_stack.cpp:51-68 | stacks are built bottom row first, skipping spaces, so the highest crate drawn in a column is the top of that column's stack |
| `SupplyStack.Move` | 2022/Day5_SupplyStack/supply_stack.cpp:92-109 | the top min(n, height) crates (none when n <= 0) leave the source; the destination gains them reversed (part 1) or in order (part 2); every other stack is unchanged; with source = destination the block goes back onto the same stack |
| `SupplyStack.CraneOrders` | 2022/Day5_SupplyStack/supply_stack.cpp:95-108 | the destination keeps its old crates underneath, and above them lies exactly the lifted block, in its own order for part 2 and reversed for part 1 |
| `SupplyStack.MoveKeepsCrates` | 2022/Day5_SupplyStack/supply_stack.cpp:92-109 | a move neither creates nor loses crates: the multiset of all crates is unchanged |
| `SupplyStack.OneAtATime` | 2022/Day5_SupplyStack/supply_stack.cpp:96-108 | part 1's move of n crates equals n successive moves of a single crate |
| `SupplyStack.CranesAgreeOnOne` | 2022/Day5_SupplyStack/supply_stack.cpp:101-104 | for a one-crate move the two parts give the same stacks |
| `SupplyStack.RunKeepsCrates` | 2022/Day5_SupplyStack/supply_stack.cpp:111-117 | running any in-range instruction list keeps the multiset of crates |
| `SupplyStack.ComputeSolution` | 2022/Day5_SupplyStack/supply_stack.cpp:111-124 | applies the instructions in order with 1-based stack numbers and returns, for every stack left to right, its top crate |
| `HoofIt.Neighbours` | 2024/Day_10_Hoof_It/day_10_hoof_it.cpp:78-89 | at most one cell per direction is queued; each queued cell is on the map, one step away, and exactly one higher |
| `HoofIt.NeighboursMeans` | 2024/Day_10_Hoof_It/day_10_hoof_it.cpp:78-89 | a cell is queued if and only if it is one of the direction offsets, admitted by the bounds, and one higher than the current cell |
| `HoofIt.Ends` | 2024/Day_10_Hoof_It/day_10_hoof_it.cpp:75 | every trail end is a `9` on the map, no further away than the height still to climb; a cell above `9` has no trails |
| `HoofIt.TraversePaths` | 2024/Day_10_Hoof_It/day_10_hoof_it.cpp:65-92 | the queue reports exactly the trail ends of the recursive definition, each as often (order aside), and terminates |
| `HoofIt.CountPathsPart1` | 2024/Day_10_Hoof_It/day_10_hoof_it.cpp:94-101 | counts the distinct `9`s reachable from the trailhead |
| `HoofIt.CountPathsPart2` | 2024/Day_10_Hoof_It/day_10_hoof_it.cpp:104-111 | counts the trails from the trailhead, one per reported end |
| `HoofIt.PartOneAtMostPartTwo` | 2024/Day_10_Hoof_It/day_10_hoof_it.cpp:94-111 | for every map the part 1 total never exceeds the part 2 total |
| `HoofIt.Day10Solution` | 2024/Day_10_Hoof_It/day_10_hoof_it.cpp:113-128 | sums the scores of all `0` cells, reading each row up to the width of the first (corrected column bound) |
| `HoofIt.RowSolution` | 2024/Day_10_Hoof_It/day_10_hoof_it.cpp:119-125 | the inner loop adds the scores of the `0`s of one row |
| `HoofIt.RowWidthAdmitsMap` | 2024/Day_10_Hoof_It/day_10_hoof_it.cpp:82-84 | with the row width as the column bound, a cell is admitted exactly when it lies on a rectangular map |
| `HoofIt.RowCountBoundMissesTrail` | 2024/Day_10_Hoof_It/day_10_hoof_it.cpp:82-84 | as written (columns bounded by the row count), the map `0123456789` scores 0; with the width it scores 1 |
| `GiantSquid.ParseCsvOfCsv` | 2021/Day_4_Giant_Squid/squid.cpp:27-32 | reading a line of integers written in decimal and separated by commas gives back exactly those integers, in order |
| `GiantSquid.Mark` | 2021/Day_4_Giant_Squid/squid.cpp:61-67 | afterwards a cell is crossed off (-1) exactly when it was before or held the drawn number; every other cell keeps its number; the shape is kept |
| `GiantSquid.MarkTwice` | 2021/Day_4_Giant_Squid/squid.cpp:61-67 | crossing off the same number twice is the same as once |
| `GiantSquid.MarkCommutes` | 2021/Day_4_Giant_Squid/squid.cpp:61-67 | the order in which two numbers are crossed off does not matter |
| `GiantSquid.MarkStep` | 2021/Day_4_Giant_Squid/squid.cpp:61-67 | crossing off the draws one at a time gives the board on which every cell whose number was drawn is crossed off |
| `GiantSquid.AllCrossed` | 2021/Day_4_Giant_Squid/squid.cpp:72 | `all_of` over a row is true exactly when every cell of the row is crossed off |
| `GiantSquid.HasGridWon` | 2021/Day_4_Giant_Squid/squid.cpp:69-89 | true exactly when some row, or some column among the first as many as there are rows, is entirely crossed off |
| `GiantSquid.WonStaysWon` | 2021/Day_4_Giant_Squid/squid.cpp:61-89 | once a board has won, crossing off more numbers keeps it won |
| `GiantSquid.PlayBingo` | 2021/Day_4_Giant_Squid/squid.cpp:91-104 | reports the first draw after which some board has won, with the lowest such board; no board won on any earlier draw; when none ever wins, the board count and -1 |
| `GiantSquid.Survivors` | 2021/Day_4_Giant_Squid/squid.cpp:116-117 | the kept boards are boards of the input that have not won, and every board that has not won is kept |
| `GiantSquid.LastBoardToWin` | 2021/Day_4_Giant_Squid/squid.cpp:106-129 | reports the first draw on which a single board is in play and wins, with that board as marked then; -1 exactly when no draw is such, with the boards still in play after all draws; a reported number is a draw on which the sole board left wins after not having won before |
| `GiantSquid.Draw` | 2021/Day_4_Giant_Squid/squid.cpp:110-126 | one draw stops exactly when a single board is in play and wins on it, returning that board marked; otherwise the boards in play afterwards are those in play before the next draw, the unwon boards of the field |
| `GiantSquid.InPlay` | 2021/Day_4_Giant_Squid/squid.cpp:110-126 | the boards still in play before a draw keep the shape of the input boards |
| `GiantSquid.SoleWinnerExample` | 2021/Day_4_Giant_Squid/squid.cpp:110-126 | a single one-cell board holding the first draw is the sole board in play and wins on that draw, with none before it |
| `GiantSquid.InPlayStep` | 2021/Day_4_Giant_Squid/squid.cpp:110-126 | one draw on the boards in play: with other than one board the unwon marked boards are in play next; one board that does not win stays in play; a sole winner is exactly one board that wins on that draw |
| `GiantSquid.SurvivorsMark` | 2021/Day_4_Giant_Squid/squid.cpp:116-117 | dropping the won boards before a draw leaves the same boards in play after it as dropping them afterwards, since a won board stays won |
| `GiantSquid.SurvivorsOfNoneWon` | 2021/Day_4_Giant_Squid/squid.cpp:116-117 | when no board has won, removing the won boards keeps every board |
| `GiantSquid.MarkAllNothing` | 2021/Day_4_Giant_Squid/squid.cpp:110-126 | before the first draw no board is marked |
| `CeresSearch.ContainsInUniDirection` | 2024/Day_4_Ceres_Search/day_4_ceres_search.cpp:58-71 | true exactly when the word is read from the start cell stepping by the offset, every letter inside the grid, columns bounded by the start row's width |
| `CeresSearch.OccursMeans` | 2024/Day_4_Ceres_Search/day_4_ceres_search.cpp:58-71 | a reading is letter m of the word sitting at start + m * offset, for every m, inside the grid |
| `CeresSearch.CellCount` | 2024/Day_4_Ceres_Search/day_4_ceres_search.cpp:95-101 | counts the directions of one cell along which the word is read, none unless the cell holds the first letter |
| `CeresSearch.RowCount` | 2024/Day_4_Ceres_Search/day_4_ceres_search.cpp:93-102 | counts the (cell, direction) pairs of one row |
| `CeresSearch.Day4Part1` | 2024/Day_4_Ceres_Search/day_4_ceres_search.cpp:81-106 | the count is the number of distinct (row, column, direction) triples from which the word is read |
| `CeresSearch.XMasReadsMas` | 2024/Day_4_Ceres_Search/day_4_ceres_search.cpp:123-127 | a cell counts exactly when it is an `A` and `MAS` is read along both diagonals through it, each in one of its two senses |
| `CeresSearch.BorderNeverCounts` | 2024/Day_4_Ceres_Search/day_4_ceres_search.cpp:129-133 | a cell in the first or last row or column never counts |
| `CeresSearch.RowCentreCount` | 2024/Day_4_Ceres_Search/day_4_ceres_search.cpp:140-146 | counts the centres of one row |
| `CeresSearch.Day4Part2` | 2024/Day_4_Ceres_Search/day_4_ceres_search.cpp:135-149 | the count is the number of distinct cells that are centres of an X of two `MAS`es |
| `Chronospatial.Day17Part1` | 2024/Day_17_Chronospatial_Computer/day_17_chronospatial_computer.cpp:68-86 | one value per octal digit of the seed (seed < 8^n, and 8^(n-1) <= seed when n > 0; none for 0); each in 0..7 and equal to CalculateRegisterB(seed / 8^k) mod 8 |
| `Chronospatial.Shift8Zero` | 2024/Day_17_Chronospatial_Computer/day_17_chronospatial_computer.cpp:74-79 | after k divisions by 8, A is zero exactly when the seed is below 8^k |
| `Chronospatial.Shift8Last` | 2024/Day_17_Chronospatial_Computer/day_17_chronospatial_computer.cpp:79 | one more division by 8 after k is k + 1 divisions |
| `Chronospatial.BinarySearch` | 2024/Day_17_Chronospatial_Computer/day_17_chronospatial_computer.cpp:111 | on an ascending list, found iff the value occurs |
| `Chronospatial.RangeMeans` | 2024/Day_17_Chronospatial_Computer/day_17_chronospatial_computer.cpp:108-115 | the kept starts of a range are exactly the qualifying ones in it, ascending |
| `Chronospatial.BlockMeans` | 2024/Day_17_Chronospatial_Computer/day_17_chronospatial_computer.cpp:108-115 | a start is kept for val iff start / 8 == val, its first output is the target and start / 8 is a previous value |
| `Chronospatial.BlockLoop` | 2024/Day_17_Chronospatial_Computer/day_17_chronospatial_computer.cpp:108-115 | the innermost loop keeps exactly those starts |
| `Chronospatial.GrownMeans` | 2024/Day_17_Chronospatial_Computer/day_17_chronospatial_computer.cpp:106-116 | a value is collected iff its start / 8 is one of the values walked so far and it qualifies |
| `Chronospatial.StepMeans` | 2024/Day_17_Chronospatial_Computer/day_17_chronospatial_computer.cpp:103-117 | after one target: x in the new list iff x / 8 was a previous value and RegisterB(x) mod 8 is the target |
| `Chronospatial.GrownAscending` | 2024/Day_17_Chronospatial_Computer/day_17_chronospatial_computer.cpp:106-116 | collected values ascend and stay below 8 * last + 8 |
| `Chronospatial.StepAscending` | 2024/Day_17_Chronospatial_Computer/day_17_chronospatial_computer.cpp:103-117 | a strictly ascending list stays strictly ascending |
| `Chronospatial.SearchAscending` | 2024/Day_17_Chronospatial_Computer/day_17_chronospatial_computer.cpp:100-118 | strictly ascending after every target |
| `Chronospatial.StepLoop` | 2024/Day_17_Chronospatial_Computer/day_17_chronospatial_computer.cpp:106-116 | the two inner loops compute one pass |
| `Chronospatial.ProducesStep` | 2024/Day_17_Chronospatial_Computer/day_17_chronospatial_computer.cpp:108-111 | producing n targets = producing the first n-1 from x / 8 and the last from x |
| `Chronospatial.SearchMeans` | 2024/Day_17_Chronospatial_Computer/day_17_chronospatial_computer.cpp:100-118 | final list holds exactly the x with x / 8^n a previous value and the k-th output of the run from x being targets[n-1-k] |
| `Chronospatial.MinElement` | 2024/Day_17_Chronospatial_Computer/day_17_chronospatial_computer.cpp:120 | the least element of a non-empty list |
| `Chronospatial.Day17Part2` | 2024/Day_17_Chronospatial_Computer/day_17_chronospatial_computer.cpp:100-121 | the least value that produces the targets over a previous value; requires the final list non-empty (min_element of an empty list is undefined) |
| `Treetop.MarkCompleteRow` | 2022/Day8_TreetopTreeHouse/tree_house.cpp:45-47 | row i entirely flagged, every other flag unchanged |
| `Treetop.MarkEnds` | 2022/Day8_TreetopTreeHouse/tree_house.cpp:52-54 | first and last flag of every row set, others unchanged |
| `Treetop.InitializeVisibility` | 2022/Day8_TreetopTreeHouse/tree_house.cpp:43-57 | exactly the border cells are added to the flags |
| `Treetop.BorderVisible` | 2022/Day8_TreetopTreeHouse/tree_house.cpp:48-56 | a border tree is visible from an edge |
| `Treetop.MarkVisibilityHorizontally` | 2022/Day8_TreetopTreeHouse/tree_house.cpp:59-76 | interior position j gets flagged iff it was, or every earlier tree is strictly shorter; ends untouched |
| `Treetop.MarkVisibilityFromLeft` | 2022/Day8_TreetopTreeHouse/tree_house.cpp:78-81 | as above, scanning left to right |
| `Treetop.ClearReversed` | 2022/Day8_TreetopTreeHouse/tree_house.cpp:83-86 | reversing a row turns "all earlier shorter" into "all later shorter" |
| `Treetop.MarkVisibilityFromRight` | 2022/Day8_TreetopTreeHouse/tree_house.cpp:83-86 | interior j flagged iff it was, or every later tree strictly shorter |
| `Treetop.MarkVisibilityVertically` | 2022/Day8_TreetopTreeHouse/tree_house.cpp:88-104 | only column c of interior rows changes; flagged iff every tree above strictly shorter |
| `Treetop.MarkVisibilityFromTop` | 2022/Day8_TreetopTreeHouse/tree_house.cpp:106-110 | same, top to bottom |
| `Treetop.MarkVisibilityFromBottom` | 2022/Day8_TreetopTreeHouse/tree_house.cpp:112-116 | interior rows of column c flagged iff every tree below strictly shorter |
| `Treetop.RowTrueCount` | 2022/Day8_TreetopTreeHouse/tree_house.cpp:120-121 | summing a row's bools counts its true cells |
| `Treetop.Count1sMeans` | 2022/Day8_TreetopTreeHouse/tree_house.cpp:118-123 | Count1s is the number of true cells |
| `Treetop.RowPass` | 2022/Day8_TreetopTreeHouse/tree_house.cpp:132-136 | after scanning row idx both ways, rows 1..idx hold their horizontal visibility |
| `Treetop.ColumnPass` | 2022/Day8_TreetopTreeHouse/tree_house.cpp:137-141 | after scanning column idx both ways, columns 1..idx also hold vertical visibility |
| `Treetop.ScannedMeansVisible` | 2022/Day8_TreetopTreeHouse/tree_house.cpp:125-142 | after all scans, a cell is flagged iff its tree is visible from some edge |
| `Treetop.BorderCount` | 2022/Day8_TreetopTreeHouse/tree_house.cpp:125-143 | with the border flagged the count is at least 2R + 2C - 4 |
| `Treetop.CountNumberOfVisibleTrees` | 2022/Day8_TreetopTreeHouse/tree_house.cpp:125-143 | the number of trees visible from some edge; at least 2R + 2C - 4 for R, C >= 2 |
| `RamRun.ParseShowPosition` | 2024/Day_18_RAM_Run/day_18_ram_run.cpp:55-61 | a position printed as `col,row` reads back as itself |
| `RamRun.ParseWithoutComma` | 2024/Day_18_RAM_Run/day_18_ram_run.cpp:56-59 | a line with no comma gives both coordinates the number of the whole line |
| `RamRun.CalculateMaxDimensions` | 2024/Day_18_RAM_Run/day_18_ram_run.cpp:66-77 | each dimension is at least 1, exceeds the matching coordinate of every one of the first n bytes, and is 1 or one past some byte's coordinate |
| `RamRun.CreateGrid` | 2024/Day_18_RAM_Run/day_18_ram_run.cpp:80-84 | rows by cols cells, all free |
| `RamRun.MarkPositionsInGrid` | 2024/Day_18_RAM_Run/day_18_ram_run.cpp:86-92 | exactly the cells of the first n bytes become corrupted; all other cells keep their value |
| `RamRun.MemoryStep` | 2024/Day_18_RAM_Run/day_18_ram_run.cpp:86-92 | the grid after n + 1 bytes is the grid after n with the cell of byte n corrupted |
| `RamRun.ReachMonotone` | 2024/Day_18_RAM_Run/day_18_ram_run.cpp:105-148 | cells within j moves are within k moves for j <= k |
| `RamRun.TryMove` | 2024/Day_18_RAM_Run/day_18_ram_run.cpp:132-143 | an open unvisited neighbour is marked and queued once with cost c + 1; afterwards every open neighbour in that direction is visited |
| `RamRun.PushedAppend` | 2024/Day_18_RAM_Run/day_18_ram_run.cpp:140-143 | pushing a fresh open neighbour keeps one visited mark per pushed node |
| `RamRun.Expand` | 2024/Day_18_RAM_Run/day_18_ram_run.cpp:124-145 | after the four checks every open neighbour is visited, and each pushed node is a fresh open neighbour with cost c + 1 |
| `RamRun.AdjacentReach` | 2024/Day_18_RAM_Run/day_18_ram_run.cpp:124-143 | an open neighbour of a cell within d moves is within d + 1 moves |
| `RamRun.PushedExact` | 2024/Day_18_RAM_Run/day_18_ram_run.cpp:140-143 | the nodes pushed for a node of exact cost d have exact cost d + 1 |
| `RamRun.PushedClosed` | 2024/Day_18_RAM_Run/day_18_ram_run.cpp:113-145 | after a pop and its pushes each visited cell is still queued or has all its open neighbours visited |
| `RamRun.QueueAppended` | 2024/Day_18_RAM_Run/day_18_ram_run.cpp:113-145 | after the pushes the queue holds cost d then cost d + 1, all visited and exact |
| `RamRun.AddedCells` | 2024/Day_18_RAM_Run/day_18_ram_run.cpp:135-136 | the pushed cells lie inside the grid |
| `RamRun.NextLevel` | 2024/Day_18_RAM_Run/day_18_ram_run.cpp:113-146 | once the last node of cost d is popped, every cell within d + 1 moves is visited |
| `RamRun.LevelDone` | 2024/Day_18_RAM_Run/day_18_ram_run.cpp:113-146 | at a level boundary the queue holds only cost d + 1 and everything within d + 1 moves is visited |
| `RamRun.Visit` | 2024/Day_18_RAM_Run/day_18_ram_run.cpp:115-145 | popping a node other than the end and expanding it keeps the search invariant |
| `RamRun.ExactAnswer` | 2024/Day_18_RAM_Run/day_18_ram_run.cpp:118-122 | the end popped with its exact cost: that cost is the fewest moves |
| `RamRun.ClosedHoldsReach` | 2024/Day_18_RAM_Run/day_18_ram_run.cpp:113-147 | a visited set closed under open moves holds every cell reachable from the start |
| `RamRun.ClosedAnswer` | 2024/Day_18_RAM_Run/day_18_ram_run.cpp:113-148 | an emptied queue without the end means the end cannot be reached |
| `RamRun.FindMinimumDistancesBFS` | 2024/Day_18_RAM_Run/day_18_ram_run.cpp:105-148 | -1 exactly when the end is unreachable, otherwise the least number of moves that reaches it |
| `RamRun.Day18Part1` | 2024/Day_18_RAM_Run/day_18_ram_run.cpp:151-157 | the search's answer on the grid sized and corrupted by the first n bytes, from the top-left to the bottom-right corner |
| `RamRun.Fall` | 2024/Day_18_RAM_Run/day_18_ram_run.cpp:164-171 | one byte falls, and the flag is set exactly when the corner is then cut off |
| `RamRun.Day18Part2` | 2024/Day_18_RAM_Run/day_18_ram_run.cpp:159-174 | empty exactly when no byte cuts the corner off; otherwise `col,row` of the first byte that does |
| `Resonant.RowHitsMeans` | 2024/Day_8_Resonant_Collinearity/day_8_resonant_collinearity.cpp:59-65 | the hits of a row prefix are exactly its cells holding the character, left to right |
| `Resonant.HitsMeans` | 2024/Day_8_Resonant_Collinearity/day_8_resonant_collinearity.cpp:57-66 | the hits of the first i rows are exactly their cells holding the character, in row-major order |
| `Resonant.GroupMeans` | 2024/Day_8_Resonant_Collinearity/day_8_resonant_collinearity.cpp:54-68 | a group lists exactly the cells holding its character, in row-major order, so no cell twice |
| `Resonant.HitsUpToStep` | 2024/Day_8_Resonant_Collinearity/day_8_resonant_collinearity.cpp:59-64 | one more cell extends the hits by that cell exactly when it holds the character |
| `Resonant.RowTableStep` | 2024/Day_8_Resonant_Collinearity/day_8_resonant_collinearity.cpp:61-64 | recording one cell keeps the table equal to the hits so far for every character |
| `Resonant.RowTableStart` | 2024/Day_8_Resonant_Collinearity/day_8_resonant_collinearity.cpp:57-59 | a row starts from the table of the rows before it |
| `Resonant.RowTableEnd` | 2024/Day_8_Resonant_Collinearity/day_8_resonant_collinearity.cpp:59-66 | a finished row gives the table of one more row |
| `Resonant.ScanRow` | 2024/Day_8_Resonant_Collinearity/day_8_resonant_collinearity.cpp:59-65 | after a row the table holds every antenna character's cells of the rows so far |
| `Resonant.GetAntennas` | 2024/Day_8_Resonant_Collinearity/day_8_resonant_collinearity.cpp:54-68 | a character is a key exactly when it is a letter or digit present in the grid, and maps to all its cells in row-major order |
| `Resonant.LineRowMeans` | 2024/Day_8_Resonant_Collinearity/day_8_resonant_collinearity.cpp:146-150 | the scanned points of a row are exactly those of the row on the pair's line |
| `Resonant.LineBoxMeans` | 2024/Day_8_Resonant_Collinearity/day_8_resonant_collinearity.cpp:145-151 | the scanned points are exactly the in-grid points on the pair's line |
| `Resonant.CollinearEnds` | 2024/Day_8_Resonant_Collinearity/day_8_resonant_collinearity.cpp:115-117 | both antennas of a pair pass the collinearity test |
| `Resonant.CollinearSwap` | 2024/Day_8_Resonant_Collinearity/day_8_resonant_collinearity.cpp:115-117 | the test gives the same answer with the pair swapped |
| `Resonant.ReflectCollinear` | 2024/Day_8_Resonant_Collinearity/day_8_resonant_collinearity.cpp:97-102 | each part 1 antinode passes the collinearity test for its pair |
| `Resonant.ContributionMeans` | 2024/Day_8_Resonant_Collinearity/day_8_resonant_collinearity.cpp:97-106 | a pair adds exactly its in-grid reflections (part 1) or its in-grid line points (part 2) |
| `Resonant.PartnersMeans` | 2024/Day_8_Resonant_Collinearity/day_8_resonant_collinearity.cpp:91-107 | the inner loop adds exactly the contributions of pairs (i, k) with k > i |
| `Resonant.PairsMeans` | 2024/Day_8_Resonant_Collinearity/day_8_resonant_collinearity.cpp:89-108 | the outer loop adds exactly the contributions of pairs (a, k) with a < k |
| `Resonant.ScanGrid` | 2024/Day_8_Resonant_Collinearity/day_8_resonant_collinearity.cpp:145-151 | the scan collects exactly the in-grid points on the pair's line |
| `Resonant.PairContribution` | 2024/Day_8_Resonant_Collinearity/day_8_resonant_collinearity.cpp:93-106 | a pair's antinodes as part 1 or part 2 defines them |
| `Resonant.PartnerLoop` | 2024/Day_8_Resonant_Collinearity/day_8_resonant_collinearity.cpp:91-107 | the inner pair loop's antinodes |
| `Resonant.GroupAntinodes` | 2024/Day_8_Resonant_Collinearity/day_8_resonant_collinearity.cpp:129-153 | a group's antinodes: its antennas when it has two or more (part 2 only), plus every pair's |
| `Resonant.AllGroups` | 2024/Day_8_Resonant_Collinearity/day_8_resonant_collinearity.cpp:87-109 | the union over every frequency group, whatever order the map yields them in |
| `Resonant.PairFromGroup` | 2024/Day_8_Resonant_Collinearity/day_8_resonant_collinearity.cpp:54-68 | two different entries of a group are two different antennas of one frequency |
| `Resonant.GroupFromPair` | 2024/Day_8_Resonant_Collinearity/day_8_resonant_collinearity.cpp:54-68 | two antennas of one frequency sit at two different entries of its group |
| `Resonant.Collect1` | 2024/Day_8_Resonant_Collinearity/day_8_resonant_collinearity.cpp:87-109 | the groups' part 1 antinodes are exactly the in-grid reflections of an antenna away from a same-frequency partner |
| `Resonant.Collect2` | 2024/Day_8_Resonant_Collinearity/day_8_resonant_collinearity.cpp:128-154 | the groups' part 2 antinodes are exactly the partnered antennas plus the in-grid points on some same-frequency pair's line |
| `Resonant.BoxSize` | 2024/Day_8_Resonant_Collinearity/day_8_resonant_collinearity.cpp:49-52 | the grid box holds rows times cols points |
| `Resonant.Antinodes1Bound` | 2024/Day_8_Resonant_Collinearity/day_8_resonant_collinearity.cpp:87-111 | part 1's antinodes lie in the grid, so there are at most rows times cols |
| `Resonant.Part1WithinPart2` | 2024/Day_8_Resonant_Collinearity/day_8_resonant_collinearity.cpp:97-150 | every part 1 antinode is also a part 2 antinode |
| `Resonant.RectangularLines` | 2024/Day_8_Resonant_Collinearity/day_8_resonant_collinearity.cpp:132-151 | on a rectangular grid the antenna step adds nothing beyond the line points |
| `Resonant.Day8Part1` | 2024/Day_8_Resonant_Collinearity/day_8_resonant_collinearity.cpp:80-112 | the number of distinct in-grid reflections of same-frequency pairs, at most rows times cols |
| `Resonant.CalculateAntinodesPartTwo` | 2024/Day_8_Resonant_Collinearity/day_8_resonant_collinearity.cpp:119-158 | the number of distinct part 2 antinodes |
| `Restroom.ProcessShowRobot` | 2024/Day_14_Restroom_Redoubt/day_14_restroom_redoubt.cpp:53-66 | a robot written as `p=x,y v=dx,dy` is a line the parser can index and reads back as the same robot |
| `Restroom.CalculateNewPosition` | 2024/Day_14_Restroom_Redoubt/day_14_restroom_redoubt.cpp:102-105 | the wrapped coordinate is the mathematical remainder of position plus velocity times seconds, though C++ `%` can be negative |
| `Restroom.ModOfRem` | 2024/Day_14_Restroom_Redoubt/day_14_restroom_redoubt.cpp:104 | adding the axis length to the C++ remainder and taking it again gives the non-negative remainder |
| `Restroom.NewPositionStep` | 2024/Day_14_Restroom_Redoubt/day_14_restroom_redoubt.cpp:102-105 | one more second after n seconds lands where n + 1 seconds do |
| `Restroom.NewPositionZero` | 2024/Day_14_Restroom_Redoubt/day_14_restroom_redoubt.cpp:102-105 | zero seconds leave an on-grid coordinate unchanged |
| `Restroom.MoveAll` | 2024/Day_14_Restroom_Redoubt/day_14_restroom_redoubt.cpp:136-145 | every robot after n seconds, each still on the grid |
| `Restroom.MoveAllStep` | 2024/Day_14_Restroom_Redoubt/day_14_restroom_redoubt.cpp:176-177 | moving one second at a time is moving the whole time at once |
| `Restroom.MoveAllZero` | 2024/Day_14_Restroom_Redoubt/day_14_restroom_redoubt.cpp:170-177 | robots on the grid are where they were after zero seconds |
| `Restroom.CensusAdd` | 2024/Day_14_Restroom_Redoubt/day_14_restroom_redoubt.cpp:150-153 | one more robot adds one to its own cell and nothing else |
| `Restroom.CreateGrid` | 2024/Day_14_Restroom_Redoubt/day_14_restroom_redoubt.cpp:147-155 | None exactly when some robot is off the grid; otherwise each cell holds the number of robots on it |
| `Restroom.MoveCell` | 2024/Day_14_Restroom_Redoubt/day_14_restroom_redoubt.cpp:140-141 | moving one robot keeps every cell equal to its count plus the same offset |
| `Restroom.ExecuteIterations` | 2024/Day_14_Restroom_Redoubt/day_14_restroom_redoubt.cpp:134-145 | None exactly when some robot is off the grid; otherwise the robots n seconds on, every cell changed by arrivals minus departures, so a grid that counted the robots still does |
| `Restroom.HalfRowBump` | 2024/Day_14_Restroom_Redoubt/day_14_restroom_redoubt.cpp:113-119 | one more robot in a row changes its half-row sum by one exactly when its column is in that half |
| `Restroom.QuadrantBumpRow` | 2024/Day_14_Restroom_Redoubt/day_14_restroom_redoubt.cpp:107-121 | one more robot in a row of the run changes the quadrant sum by one exactly when its column is in the half |
| `Restroom.QuadrantBump` | 2024/Day_14_Restroom_Redoubt/day_14_restroom_redoubt.cpp:107-121 | one more robot changes a quadrant sum by one exactly when it lies in that quadrant |
| `Restroom.QuadrantCensus` | 2024/Day_14_Restroom_Redoubt/day_14_restroom_redoubt.cpp:107-121 | over a counting grid a quadrant sum is the number of robots in that rectangle |
| `Restroom.QuadrantsCensus` | 2024/Day_14_Restroom_Redoubt/day_14_restroom_redoubt.cpp:123-132 | the four sums are the robot counts of top-left, top-right, bottom-left and bottom-right, leaving out an odd middle row and column |
| `Restroom.QuadrantsPartition` | 2024/Day_14_Restroom_Redoubt/day_14_restroom_redoubt.cpp:123-132 | every robot on the grid is in exactly one quadrant or on a middle line |
| `Restroom.Day14Part1` | 2024/Day_14_Restroom_Redoubt/day_14_restroom_redoubt.cpp:157-167 | None exactly when some robot is off the grid; otherwise the product of the four quadrant counts after 100 seconds |
| `Restroom.SparseCensus` | 2024/Day_14_Restroom_Redoubt/day_14_restroom_redoubt.cpp:178 | no cell above one exactly when no two robots share a position |
| `Restroom.Second` | 2024/Day_14_Restroom_Redoubt/day_14_restroom_redoubt.cpp:175-178 | one pass: the robots one more second on, with a counting grid, and whether they are all apart |
| `Restroom.Day14Part2` | 2024/Day_14_Restroom_Redoubt/day_14_restroom_redoubt.cpp:169-186 | None exactly when some robot is off the grid; otherwise the first second from 1 to 10000 with all robots apart, or 0 when there is none |
| `BridgeRepair.ShiftFactorMeans` | 2024/Day_7_Bridge_Repair/day_7_bridge_repair.cpp:98-106 | for a positive value the factor is the smallest power of ten above it |
| `BridgeRepair.ShiftFactorNegative` | 2024/Day_7_Bridge_Repair/day_7_bridge_repair.cpp:98-106 | a negative value gets the factor of its magnitude |
| `BridgeRepair.ConcatDigits` | 2024/Day_7_Bridge_Repair/day_7_bridge_repair.cpp:115 | the concatenation operator on positive numbers writes the digits of the second after those of the first |
| `BridgeRepair.EvaluateExpression` | 2024/Day_7_Bridge_Repair/day_7_bridge_repair.cpp:96-120 | the loop gives the left-to-right value of the numbers and operators |
| `BridgeRepair.EvalSingle` | 2024/Day_7_Bridge_Repair/day_7_bridge_repair.cpp:107-111 | a single number evaluates to itself |
| `BridgeRepair.EvalLeftToRight` | 2024/Day_7_Bridge_Repair/day_7_bridge_repair.cpp:111-118 | there is no precedence: 2 + 3 * 4 is 20 |
| `BridgeRepair.EvalSkips` | 2024/Day_7_Bridge_Repair/day_7_bridge_repair.cpp:113-116 | an operator other than plus, times and concatenation skips its number |
| `BridgeRepair.EvalAllPlus` | 2024/Day_7_Bridge_Repair/day_7_bridge_repair.cpp:113 | with only + the value is the sum of the numbers |
| `BridgeRepair.EvalAllConcat` | 2024/Day_7_Bridge_Repair/day_7_bridge_repair.cpp:115 | with only concatenation between positive numbers the value's decimal digits are theirs in a row |
| `BridgeRepair.WrittenZero` | 2024/Day_7_Bridge_Repair/day_7_bridge_repair.cpp:136 | index 0 writes nothing, so every slot keeps the fill |
| `BridgeRepair.WrittenShort` | 2024/Day_7_Bridge_Repair/day_7_bridge_repair.cpp:140-146 | slots left of an index's digits keep the fill |
| `BridgeRepair.DigitCountBound` | 2024/Day_7_Bridge_Repair/day_7_bridge_repair.cpp:135-146 | an index below N^len has at most len digits, so the writes stay in the string |
| `BridgeRepair.WriteStep` | 2024/Day_7_Bridge_Repair/day_7_bridge_repair.cpp:143-145 | writing one digit extends the written suffix by one slot |
| `BridgeRepair.WriteDone` | 2024/Day_7_Bridge_Repair/day_7_bridge_repair.cpp:140-146 | once the digits run out the string is the one this index should have |
| `BridgeRepair.WriteIndex` | 2024/Day_7_Bridge_Repair/day_7_bridge_repair.cpp:140-146 | writing an index over the string of a smaller index gives that index's string, although the string is never cleared |
| `BridgeRepair.Search` | 2024/Day_7_Bridge_Repair/day_7_bridge_repair.cpp:133-154 | true exactly when some index below N^(k-1) writes a string that evaluates to the test value |
| `BridgeRepair.CanEquationBeSolvedAsWritten` | 2024/Day_7_Bridge_Repair/day_7_bridge_repair.cpp:133-154 | the search with `'\0'` as the initial fill, as the program has it |
| `BridgeRepair.WrittenOver` | 2024/Day_7_Bridge_Repair/day_7_bridge_repair.cpp:140-146 | with the first operator as fill every slot names a valid operator |
| `BridgeRepair.EncodeBound` | 2024/Day_7_Bridge_Repair/day_7_bridge_repair.cpp:135 | the index of a string of len valid operators is below N^len |
| `BridgeRepair.EncodeWritten` | 2024/Day_7_Bridge_Repair/day_7_bridge_repair.cpp:140-146 | every string of valid operators is what its index writes with the first operator as fill |
| `BridgeRepair.MatchSolves` | 2024/Day_7_Bridge_Repair/day_7_bridge_repair.cpp:147-151 | a string found by the search is a solution |
| `BridgeRepair.SolutionIndex` | 2024/Day_7_Bridge_Repair/day_7_bridge_repair.cpp:138-152 | every solution is reached by some index the search tries |
| `BridgeRepair.CanEquationBeSolved` | 2024/Day_7_Bridge_Repair/day_7_bridge_repair.cpp:133-154 | with the first operator as fill: true exactly when some choice of valid operators gives the test value |
| `BridgeRepair.MissedSolution` | 2024/Day_7_Bridge_Repair/day_7_bridge_repair.cpp:136-146 | as written, `1 2` with test value 3 is missed, though 1 + 2 = 3 |
| `BridgeRepair.SpuriousSolution` | 2024/Day_7_Bridge_Repair/day_7_bridge_repair.cpp:136-146 | as written, `5 7` with test value 5 is accepted, though no choice of + or * gives 5 |
| `BridgeRepair.SolvableWider` | 2024/Day_7_Bridge_Repair/day_7_bridge_repair.cpp:188-189 | more operators can only solve more lines |
| `BridgeRepair.AccumulateValidTestValues` | 2024/Day_7_Bridge_Repair/day_7_bridge_repair.cpp:164-176 | the sum of the test values of exactly the solvable lines |
| `BridgeRepair.Part1WithinPart2` | 2024/Day_7_Bridge_Repair/day_7_bridge_repair.cpp:188-189 | part 2's total is at least part 1's |
| `BridgeRepair.Day7Part1` | 2024/Day_7_Bridge_Repair/day_7_bridge_repair.cpp:188 | the total with plus and times |
| `BridgeRepair.Day7Part2` | 2024/Day_7_Bridge_Repair/day_7_bridge_repair.cpp:189 | the total with plus, times and concatenation |
| `BinaryDiagnostic.SliceMeans` | 2021/Day_3_Binary_Diagnostic/bin_diagnose.cpp:26-35 | the slice holds the bit at start + k·jump for each k, and stops at the first position past the end |
| `BinaryDiagnostic.MostCommon` | 2021/Day_3_Binary_Diagnostic/bin_diagnose.cpp:37-43 | None exactly when one of the two bit values never occurs (the map lookup throws) |
| `BinaryDiagnostic.MostCommonMajority` | 2021/Day_3_Binary_Diagnostic/bin_diagnose.cpp:37-43 | reports one exactly when at least half the bits are ones, zero exactly when zeros are a strict majority |
| `BinaryDiagnostic.CountDual` | 2021/Day_3_Binary_Diagnostic/bin_diagnose.cpp:93-102 | the counts of ones and of zeros, which add up to the length |
| `BinaryDiagnostic.ReadBitStr` | 2021/Day_3_Binary_Diagnostic/bin_diagnose.cpp:45-65 | the spelling is binary digits, and reading it as an input line gives the bits back |
| `BinaryDiagnostic.BitStrRead` | 2021/Day_3_Binary_Diagnostic/bin_diagnose.cpp:45-65 | a line of binary digits is spelled again by the bits read from it |
| `BinaryDiagnostic.BitVecToIntValue` | 2021/Day_3_Binary_Diagnostic/bin_diagnose.cpp:88-91 | a non-empty vector converts to its big-endian value; it fails exactly when that exceeds INT_MAX; up to 31 bits always convert |
| `BinaryDiagnostic.BinaryValueBound` | 2021/Day_3_Binary_Diagnostic/bin_diagnose.cpp:88-91 | a w-bit value is below 2^w |
| `BinaryDiagnostic.BitsOfValue` | 2021/Day_3_Binary_Diagnostic/bin_diagnose.cpp:88-91 | the w bits of a vector's value are the vector |
| `BinaryDiagnostic.ValueOfBits` | 2021/Day_3_Binary_Diagnostic/bin_diagnose.cpp:88-91 | the w bits of a value below 2^w have that value |
| `BinaryDiagnostic.GetColumn` | 2021/Day_3_Binary_Diagnostic/bin_diagnose.cpp:72-81 | one entry per number |
| `BinaryDiagnostic.Transpose` | 2021/Day_3_Binary_Diagnostic/bin_diagnose.cpp:158-169 | a cols by rows table whose entry j, i is bit j of number i |
| `BinaryDiagnostic.TransposeColumns` | 2021/Day_3_Binary_Diagnostic/bin_diagnose.cpp:158-169 | row j of the turned table is column j of the report |
| `BinaryDiagnostic.KeepMembers` | 2021/Day_3_Binary_Diagnostic/bin_diagnose.cpp:132-135 | a number survives a round exactly when its bit equals the chosen bit |
| `BinaryDiagnostic.KeepSize` | 2021/Day_3_Binary_Diagnostic/bin_diagnose.cpp:127-135 | as many numbers survive as the column holds copies of the chosen bit |
| `BinaryDiagnostic.PickBit` | 2021/Day_3_Binary_Diagnostic/bin_diagnose.cpp:127-150 | the bit a round keeps under each rule, from the column's counts |
| `BinaryDiagnostic.KeepChosenNonEmpty` | 2021/Day_3_Binary_Diagnostic/bin_diagnose.cpp:127-135 | the oxygen round and the corrected scrubber round never empty a non-empty list |
| `BinaryDiagnostic.MinorityEmpties` | 2021/Day_3_Binary_Diagnostic/bin_diagnose.cpp:146-154 | the scrubber round as written empties a non-empty list exactly when the column holds one bit value |
| `BinaryDiagnostic.AgreeStep` | 2021/Day_3_Binary_Diagnostic/bin_diagnose.cpp:125-136 | one round narrows the numbers starting with p to those starting with p plus the chosen bit |
| `BinaryDiagnostic.AgreeFull` | 2021/Day_3_Binary_Diagnostic/bin_diagnose.cpp:121-136 | distinct numbers cannot share a full-width prefix, so the loop never reads past the last column |
| `BinaryDiagnostic.PathsAgree` | 2021/Day_3_Binary_Diagnostic/bin_diagnose.cpp:121-157 | the rounds are determined: two paths of one rule agree as far as both go |
| `BinaryDiagnostic.SurvivorUnique` | 2021/Day_3_Binary_Diagnostic/bin_diagnose.cpp:121-157 | the filtering has at most one survivor |
| `BinaryDiagnostic.SurvivorExcludesEmptied` | 2021/Day_3_Binary_Diagnostic/bin_diagnose.cpp:140-157 | a filtering that leaves a survivor never empties the list |
| `BinaryDiagnostic.MajorityNeverEmpties` | 2021/Day_3_Binary_Diagnostic/bin_diagnose.cpp:121-138 | the oxygen filtering never empties the list |
| `BinaryDiagnostic.Rate` | 2021/Day_3_Binary_Diagnostic/bin_diagnose.cpp:121-157 | the loop ends with the survivor of the rule's rounds, or with None exactly when the rounds empty the list; never None for the oxygen rule |
| `BinaryDiagnostic.O2GeneratorRating` | 2021/Day_3_Binary_Diagnostic/bin_diagnose.cpp:121-138 | the converted value of the survivor of the majority rounds |
| `BinaryDiagnostic.CO2ScrubberRatingAsWritten` | 2021/Day_3_Binary_Diagnostic/bin_diagnose.cpp:140-157 | the converted value of the survivor of the minority rounds; None whenever those rounds empty the list |
| `BinaryDiagnostic.CO2ScrubberRating` | 2021/Day_3_Binary_Diagnostic/bin_diagnose.cpp:140-157 | with a uniform column keeping every number: the converted value of the survivor, which always exists |
| `BinaryDiagnostic.MinorityLosesEverything` | 2021/Day_3_Binary_Diagnostic/bin_diagnose.cpp:146-154 | on 10 and 11 the scrubber round as written removes both numbers, so no survivor exists |
| `BinaryDiagnostic.MinorityOfPresentSurvives` | 2021/Day_3_Binary_Diagnostic/bin_diagnose.cpp:146-154 | on 10 and 11 the corrected rule keeps both, then 10 survives |
| `BinaryDiagnostic.LifeSupportRating` | 2021/Day_3_Binary_Diagnostic/bin_diagnose.cpp:117-120 | the product of the oxygen survivor's value and the corrected scrubber survivor's value |
| `DiskFragmenter.ConvertStringToDiskMap` | 2024/Day_9_Disk_Fragmenter/day_9_disk_fragmenter.cpp:101-112 | alternating file and free segments with a running file id give, digit by digit, the segments of the map: file p/2 at even positions, free space at odd ones |
| `DiskFragmenter.DiskMapLength` | 2024/Day_9_Disk_Fragmenter/day_9_disk_fragmenter.cpp:101-112 | the disk is as long as the digits add up to |
| `DiskFragmenter.DiskMapFileBlocks` | 2024/Day_9_Disk_Fragmenter/day_9_disk_fragmenter.cpp:104-110 | file k has exactly as many blocks as the digit at position 2k (none beyond the map) |
| `DiskFragmenter.DiskMapFreeBlocks` | 2024/Day_9_Disk_Fragmenter/day_9_disk_fragmenter.cpp:104-110 | the free blocks number the sum of the digits at odd positions |
| `DiskFragmenter.CalculateChecksum` | 2024/Day_9_Disk_Fragmenter/day_9_disk_fragmenter.cpp:84-94 | the left-to-right accumulation equals the sum of position times id over the blocks |
| `DiskFragmenter.ChecksumUpdate` | 2024/Day_9_Disk_Fragmenter/day_9_disk_fragmenter.cpp:86-93 | changing block k changes the checksum by k times the change of file id, free space counting as zero |
| `DiskFragmenter.ChecksumAllFree` | 2024/Day_9_Disk_Fragmenter/day_9_disk_fragmenter.cpp:86-93 | free blocks contribute nothing: a disk with no file has checksum 0 |
| `DiskFragmenter.Partition` | 2024/Day_9_Disk_Fragmenter/day_9_disk_fragmenter.cpp:125 | the same blocks with every file block before every free block; file blocks already in the file region stay put; the result is the gap filling of the disk |
| `DiskFragmenter.Day9Part1` | 2024/Day_9_Disk_Fragmenter/day_9_disk_fragmenter.cpp:121-128 | the checksum of a part 1 layout of the expanded map, namely the one obtained by moving the last file block into the first free block while a gap remains |
| `DiskFragmenter.FirstFree` | 2024/Day_9_Disk_Fragmenter/day_9_disk_fragmenter.cpp:125 | the first free block at or after an index: every block before it is a file block |
| `DiskFragmenter.LastFile` | 2024/Day_9_Disk_Fragmenter/day_9_disk_fragmenter.cpp:125 | the last file block before an index: every block after it is free |
| `DiskFragmenter.FillStep` | 2024/Day_9_Disk_Fragmenter/day_9_disk_fragmenter.cpp:125 | a swap of the two-ended scan is one move of the gap filling: the first free block receives the last file block |
| `DiskFragmenter.FillDone` | 2024/Day_9_Disk_Fragmenter/day_9_disk_fragmenter.cpp:125 | when the scan indices meet no free block lies before a file block, so nothing is left to fill |
| `DiskFragmenter.FillGapsExample` | 2024/Day_9_Disk_Fragmenter/day_9_disk_fragmenter.cpp:121-128 | on the map `12101` the gap filling gives `0 2 1 . .`, checksum 4 |
| `DiskFragmenter.ReverseFindFileBlock` | 2024/Day_9_Disk_Fragmenter/day_9_disk_fragmenter.cpp:130-149 | the maximal run of the last file block at or before the index, with only free blocks after it up to the index |
| `DiskFragmenter.FindEmptyBlock` | 2024/Day_9_Disk_Fragmenter/day_9_disk_fragmenter.cpp:151-158 | the first free run in the range: file blocks before it, ending at the range end or at a file block; start = last and length 0 when there is none |
| `DiskFragmenter.FindEmptyBlockIfSize` | 2024/Day_9_Disk_Fragmenter/day_9_disk_fragmenter.cpp:160-175 | the leftmost free run in the range holding size blocks; (-1, 0) exactly when no size free blocks in a row lie in the range |
| `DiskFragmenter.SwapRangesMultiset` | 2024/Day_9_Disk_Fragmenter/day_9_disk_fragmenter.cpp:189 | exchanging two disjoint ranges keeps the multiset of blocks |
| `DiskFragmenter.MoveFile` | 2024/Day_9_Disk_Fragmenter/day_9_disk_fragmenter.cpp:183-192 | one step: the last file run moves into the leftmost all-free slice strictly left of it that holds it, or nothing changes when none exists; the blocks are the same and block 0 stays a file |
| `DiskFragmenter.LeadingFile` | 2024/Day_9_Disk_Fragmenter/day_9_disk_fragmenter.cpp:181-183 | a map whose first digit is not 0 starts with a block of file 0, so a file lies at or before every index the scan visits |
| `DiskFragmenter.Day9Part2` | 2024/Day_9_Disk_Fragmenter/day_9_disk_fragmenter.cpp:177-197 | the checksum of the expanded map compacted file by file, from the last file to the first, each moved into the leftmost free run before it that holds it; the compacted disk holds the same blocks |
| `PassagePathing.ParseEdge` | 2021/Day_12_Passage_Pathing/passage_pathing.cpp:48-54 | a line with a dash splits at its first dash: the two names joined by a dash give the line back, and the first name holds no dash |
| `PassagePathing.ParseShowEdge` | 2021/Day_12_Passage_Pathing/passage_pathing.cpp:48-54 | an edge whose first name holds no dash reads back from its line |
| `PassagePathing.BuildGraph` | 2021/Day_12_Passage_Pathing/passage_pathing.cpp:62-70 | each cave's list holds, edge by edge in input order, the far end of every edge at it |
| `PassagePathing.AdjMembers` | 2021/Day_12_Passage_Pathing/passage_pathing.cpp:62-70 | v is a neighbour of u exactly when some edge joins u and v |
| `PassagePathing.AdjSymmetric` | 2021/Day_12_Passage_Pathing/passage_pathing.cpp:62-70 | v is listed at u as often as u is listed at v |
| `PassagePathing.CountPaths1` | 2021/Day_12_Passage_Pathing/passage_pathing.cpp:95-112 | adds to the total the number of walks to end from u and leaves the visited set as it was |
| `PassagePathing.NeighbourPaths1` | 2021/Day_12_Passage_Pathing/passage_pathing.cpp:104-109 | the loop over u's neighbours adds the walks through each neighbour in turn |
| `PassagePathing.Walks1Sound` | 2021/Day_12_Passage_Pathing/passage_pathing.cpp:95-112 | every walk the search counts starts at u, ends at its first end, steps along passages and enters no small cave twice or already visited |
| `PassagePathing.Walks1Complete` | 2021/Day_12_Passage_Pathing/passage_pathing.cpp:95-112 | every such walk is counted |
| `PassagePathing.Walks1Exact` | 2021/Day_12_Passage_Pathing/passage_pathing.cpp:95-112 | the search counts exactly those walks |
| `PassagePathing.TotalPathsPart1` | 2021/Day_12_Passage_Pathing/passage_pathing.cpp:81-87 | the number of part 1 walks from start with nothing visited |
| `PassagePathing.IsSmallCaveVisitingCriteria` | 2021/Day_12_Passage_Pathing/passage_pathing.cpp:131-141 | true exactly when no cave is counted three or more times and at most one cave is counted twice |
| `PassagePathing.CountPaths2` | 2021/Day_12_Passage_Pathing/passage_pathing.cpp:149-161 | adds to the total the number of part 2 walks from u and leaves the counts as it found them |
| `PassagePathing.NeighbourPaths2` | 2021/Day_12_Passage_Pathing/passage_pathing.cpp:155-159 | the loop over u's neighbours adds the walks through each neighbour other than start |
| `PassagePathing.Walks2Sound` | 2021/Day_12_Passage_Pathing/passage_pathing.cpp:149-161 | every walk the search counts starts at u, ends at its first end, steps along passages, never returns to start, and meets the criterion on entry to each cave |
| `PassagePathing.Walks2Complete` | 2021/Day_12_Passage_Pathing/passage_pathing.cpp:149-161 | every such walk is counted |
| `PassagePathing.Walks2Exact` | 2021/Day_12_Passage_Pathing/passage_pathing.cpp:149-161 | the search counts exactly those walks |
| `PassagePathing.TotalPathsPart2` | 2021/Day_12_Passage_Pathing/passage_pathing.cpp:118-124 | the number of part 2 walks from start with no counts |
| `PassagePathing.PartOneWithinPartTwo` | 2021/Day_12_Passage_Pathing/passage_pathing.cpp:95-161 | every walk part 1 counts from start is counted by part 2 too |
| `WarehouseWoes.FindRobotPosition` | 2024/Day_15_Warehouse_Woes/day_15_warehouse_woes.cpp:74-86 | the first `@` in row-major order: no `@` before it; `(size, size)` when the grid has none |
| `WarehouseWoes.FindOnlyRobot` | 2024/Day_15_Warehouse_Woes/day_15_warehouse_woes.cpp:74-86 | when `@` stands only at `pos`, the robot is found at `pos` |
| `WarehouseWoes.FindFree` | 2024/Day_15_Warehouse_Woes/day_15_warehouse_woes.cpp:149-158 | a free cell found lies inside the grid and holds `.`, and the start is no wall |
| `WarehouseWoes.FindFreeSteps` | 2024/Day_15_Warehouse_Woes/day_15_warehouse_woes.cpp:149-158 | the found cell is `k` steps on, every cell before it inside, neither wall nor free |
| `WarehouseWoes.FindFreeReaches` | 2024/Day_15_Warehouse_Woes/day_15_warehouse_woes.cpp:149-158 | conversely, such a run ending in a free cell is what the search finds |
| `WarehouseWoes.FindFreeMeans` | 2024/Day_15_Warehouse_Woes/day_15_warehouse_woes.cpp:149-158 | the search finds `q` if and only if `q` ends such a run |
| `WarehouseWoes.FindFreeAhead` | 2024/Day_15_Warehouse_Woes/day_15_warehouse_woes.cpp:149-158 | the cell found lies in the line of the move, on its side |
| `WarehouseWoes.Push1Cells` | 2024/Day_15_Warehouse_Woes/day_15_warehouse_woes.cpp:157-162 | after a push the free cell holds a box, the cell ahead the robot, the old cell is free, the rest unchanged |
| `WarehouseWoes.Push1Tally` | 2024/Day_15_Warehouse_Woes/day_15_warehouse_woes.cpp:157-162 | a push keeps the number of boxes |
| `WarehouseWoes.Push1Keeps` | 2024/Day_15_Warehouse_Woes/day_15_warehouse_woes.cpp:157-162 | a push keeps a well-formed warehouse well formed and its walls in place |
| `WarehouseWoes.MoveRobot1Keeps` | 2024/Day_15_Warehouse_Woes/day_15_warehouse_woes.cpp:145-166 | a part 1 move is defined; the robot steps exactly when a free cell lies ahead before a wall; box count, walls and well-formedness kept; otherwise nothing changes |
| `WarehouseWoes.TallySet` | 2024/Day_15_Warehouse_Woes/day_15_warehouse_woes.cpp:157-162 | one write changes the count of a character by the cell it replaces and the one it writes |
| `WarehouseWoes.CalculateSumOfGrid` | 2024/Day_15_Warehouse_Woes/day_15_warehouse_woes.cpp:214-228 | the loops compute the GPS sum, `100 * row + col` over the cells holding the character |
| `WarehouseWoes.Widen` | 2024/Day_15_Warehouse_Woes/day_15_warehouse_woes.cpp:238-244 | every known tile widens to two cells |
| `WarehouseWoes.ScaleGrid` | 2024/Day_15_Warehouse_Woes/day_15_warehouse_woes.cpp:232-248 | the widened warehouse has as many rows as the input |
| `WarehouseWoes.ScaleRowCells` | 2024/Day_15_Warehouse_Woes/day_15_warehouse_woes.cpp:236-245 | a widened row is twice as long and cells `2c`, `2c+1` are the widening of cell `c` |
| `WarehouseWoes.NarrowScaleRow` | 2024/Day_15_Warehouse_Woes/day_15_warehouse_woes.cpp:236-245 | narrowing a widened row gives the row back |
| `WarehouseWoes.ScaleRowLength` | 2024/Day_15_Warehouse_Woes/day_15_warehouse_woes.cpp:238-244 | a widened row's length is twice the number of known tiles: unknown characters are dropped |
| `WarehouseWoes.ScaleWarehouse` | 2024/Day_15_Warehouse_Woes/day_15_warehouse_woes.cpp:232-248 | widening a part 1 warehouse gives a part 2 warehouse, whole boxes, robot at twice its column |
| `WarehouseWoes.ScaleGridBoxes` | 2024/Day_15_Warehouse_Woes/day_15_warehouse_woes.cpp:241 | one left box half per part 1 box |
| `WarehouseWoes.Shifted` | 2024/Day_15_Warehouse_Woes/day_15_warehouse_woes.cpp:325-333 | the shifted row has the row's length |
| `WarehouseWoes.ShiftRow` | 2024/Day_15_Warehouse_Woes/day_15_warehouse_woes.cpp:327-332 | the copying loop and the two writes give the shifted row |
| `WarehouseWoes.ShiftedRight` | 2024/Day_15_Warehouse_Woes/day_15_warehouse_woes.cpp:325-333 | pushing right: the robot's cell frees, the run moves one cell right, the free cell is used up |
| `WarehouseWoes.ShiftedLeft` | 2024/Day_15_Warehouse_Woes/day_15_warehouse_woes.cpp:325-333 | pushing left, the mirror image |
| `WarehouseWoes.ShiftedMultiset` | 2024/Day_15_Warehouse_Woes/day_15_warehouse_woes.cpp:325-333 | the shifted row is a rearrangement of the row |
| `WarehouseWoes.RowClear` | 2024/Day_15_Warehouse_Woes/day_15_warehouse_woes.cpp:323 | no wall lies between the robot and the free cell found |
| `WarehouseWoes.ShiftedWalls` | 2024/Day_15_Warehouse_Woes/day_15_warehouse_woes.cpp:325-333 | shifting a wall-free run keeps the row's walls |
| `WarehouseWoes.MoveRobotHorizontallyKeeps` | 2024/Day_15_Warehouse_Woes/day_15_warehouse_woes.cpp:318-337 | a horizontal part 2 move is defined; the robot steps exactly when a free cell lies ahead before a wall; the row keeps its cells, other rows and walls stay; otherwise nothing changes |
| `WarehouseWoes.MoveRobotHorizontally` | 2024/Day_15_Warehouse_Woes/day_15_warehouse_woes.cpp:318-337 | a horizontal move either leaves grid and robot as they were, or puts the robot one column ahead |
| `WarehouseSolve.Insert` | 2024/Day_15_Warehouse_Woes/day_15_warehouse_woes.cpp:289 | inserting into the set's listing keeps it strictly in comparator order and adds exactly the element |
| `WarehouseSolve.Order` | 2024/Day_15_Warehouse_Woes/day_15_warehouse_woes.cpp:264-265 | the listing is strictly in comparator order and holds exactly the collected pushes |
| `WarehouseSolve.AscendingUnique` | 2024/Day_15_Warehouse_Woes/day_15_warehouse_woes.cpp:264-265 | two strictly ordered listings of the same elements are equal: the iteration order of the set |
| `WarehouseSolve.AscendingDistinct` | 2024/Day_15_Warehouse_Woes/day_15_warehouse_woes.cpp:264-265 | the set holds no push twice |
| `WarehouseSolve.Swap` | 2024/Day_15_Warehouse_Woes/day_15_warehouse_woes.cpp:308 | `std::swap` exchanges the two cells and changes no other |
| `WarehouseSolve.CanMoveGood` | 2024/Day_15_Warehouse_Woes/day_15_warehouse_woes.cpp:267-297 | in a fenced part 2 warehouse the search is defined, and on success it started on no wall and recorded only pushes between non-wall cells one row apart, ahead of the robot |
| `WarehouseSolve.SwapsKeep` | 2024/Day_15_Warehouse_Woes/day_15_warehouse_woes.cpp:306-309 | swapping such pushes is defined, moves no wall and leaves the rows behind the robot alone |
| `WarehouseSolve.MoveRobotVerticallyKeeps` | 2024/Day_15_Warehouse_Woes/day_15_warehouse_woes.cpp:299-314 | a vertical part 2 move is defined; the robot steps ahead exactly when the search from the cell ahead succeeds, and otherwise stays with the grid unchanged; it never steps onto a wall; walls, the rows behind and the rest of the robot's row stay |
| `WarehouseSolve.MoveRobotVertically` | 2024/Day_15_Warehouse_Woes/day_15_warehouse_woes.cpp:299-314 | a vertical move either leaves grid and robot as they were, or puts the robot one row ahead, on its own cell of the new grid |
| `WarehouseSolve.Command` | 2024/Day_15_Warehouse_Woes/day_15_warehouse_woes.cpp:354-357 | exactly `^ v < >` are moves |
| `WarehouseSolve.Commands` | 2024/Day_15_Warehouse_Woes/day_15_warehouse_woes.cpp:352-358 | the filtered list holds only moves |
| `WarehouseSolve.RunIgnores` | 2024/Day_15_Warehouse_Woes/day_15_warehouse_woes.cpp:352-358 | characters that are not moves change nothing |
| `WarehouseSolve.Part1Keeps` | 2024/Day_15_Warehouse_Woes/day_15_warehouse_woes.cpp:351-358 | part 1 from a well-formed warehouse is defined for every list of moves and keeps boxes, walls and well-formedness |
| `WarehouseSolve.Day15Part1Defined` | 2024/Day_15_Warehouse_Woes/day_15_warehouse_woes.cpp:363-366 | part 1's answer is defined and is the GPS sum of a warehouse with the input's boxes and walls |
| `WarehouseSolve.Day15Part2Start` | 2024/Day_15_Warehouse_Woes/day_15_warehouse_woes.cpp:368-372 | part 2 finds the robot at twice its column in a well-formed part 2 warehouse with one `[` per box |
| `WarehouseWoes.GpsSet` | 2024/Day_15_Warehouse_Woes/day_15_warehouse_woes.cpp:221-224 | one write changes the GPS sum by the coordinate of the cell, as it gains or loses the character |
| `SevenSegment.WordsJoin` | 2021/Day_8_Seven_Segment/seven_segment.cpp:65-70 | the words of blank-separated words are those words, in order |
| `SevenSegment.FromString` | 2021/Day_8_Seven_Segment/seven_segment.cpp:63-72 | a line is read when it has at least fifteen words, into ten patterns and four digits |
| `SevenSegment.FromStringShow` | 2021/Day_8_Seven_Segment/seven_segment.cpp:63-72 | a line of ten patterns, a bar and four digits is read back into exactly those patterns and digits, the bar skipped |
| `SevenSegment.SymmetricDifferenceCounts` | 2021/Day_8_Seven_Segment/seven_segment.cpp:81-84 | the merge keeps each character as often as one sorted input has it more than the other |
| `SevenSegment.GetUnCommonElements` | 2021/Day_8_Seven_Segment/seven_segment.cpp:75-87 | the uncommon elements are sorted and hold each character as often as one input has it in excess of the other |
| `SevenSegment.UnCommonSymmetric` | 2021/Day_8_Seven_Segment/seven_segment.cpp:75-87 | swapping the two strings gives the same uncommon elements |
| `SevenSegment.UnCommonOfExtensions` | 2021/Day_8_Seven_Segment/seven_segment.cpp:75-87 | two strings sharing a common part with disjoint extras have exactly the extras as uncommon elements |
| `SevenSegment.UpperSegment` | 2021/Day_8_Seven_Segment/seven_segment.cpp:135-135 | when the pattern of seven is that of one plus a wire, the uncommon elements are that single wire |
| `SevenSegment.GetUpperBottomRightFromSixAndOne` | 2021/Day_8_Seven_Segment/seven_segment.cpp:89-97 | the pair is the two wires of one, the one missing from six first |
| `SevenSegment.UpperRightFromSix` | 2021/Day_8_Seven_Segment/seven_segment.cpp:89-97 | when exactly one wire of one is missing from six, it comes out as upper right and the other as bottom right |
| `SevenSegment.TemplateMapKeys` | 2021/Day_8_Seven_Segment/seven_segment.cpp:208-215 | exactly the six bitsets spelt out are keys, each mapped to its digit |
| `SevenSegment.CalculateDigit` | 2021/Day_8_Seven_Segment/seven_segment.cpp:197-231 | patterns of two, three, four or seven wires always give a digit; every result is a digit character |
| `SevenSegment.CalculateDigitBySize` | 2021/Day_8_Seven_Segment/seven_segment.cpp:201-205 | the sizes two, four, three and seven give one, four, seven and eight under every template |
| `SevenSegment.CalculateDigitBySet` | 2021/Day_8_Seven_Segment/seven_segment.cpp:216-229 | any other pattern is read from the set of its wires, not their order or repeats |
| `SevenSegment.DigitsToInt` | 2021/Day_8_Seven_Segment/seven_segment.cpp:233-240 | the number is defined exactly when all four digits are, and lies in 0 to 9999 |
| `SevenSegment.LineNumber` | 2021/Day_8_Seven_Segment/seven_segment.cpp:249-251 | a line that is read gives a number of at most four digits |
| `SevenSegmentDeduction.Deduction` | 2021/Day_8_Seven_Segment/seven_segment.cpp:121-195 | for ten patterns that draw the ten digits through any wiring of distinct byte characters, in any order, the template found is that wiring |
| `SevenSegmentDeduction.DecodeDigit` | 2021/Day_8_Seven_Segment/seven_segment.cpp:197-231 | under the template of a wiring, a pattern that draws digit k is read as k |
| `SevenSegmentDeduction.DecodeNumber` | 2021/Day_8_Seven_Segment/seven_segment.cpp:233-240 | four patterns drawn through the wiring are read as the number their digits spell |
| `SevenSegmentDeduction.EntryNumber` | 2021/Day_8_Seven_Segment/seven_segment.cpp:249-251 | the line of an entry whose patterns draw its digits is read as the number those digits spell |
| `SevenSegmentDeduction.TotalSumOfNumbers` | 2021/Day_8_Seven_Segment/seven_segment.cpp:247-255 | when each line shows a number the total is their sum |
| `SevenSegmentDeduction.LineSum` | 2021/Day_8_Seven_Segment/seven_segment.cpp:242-257 | the program's total over the lines of valid entries is the sum of the numbers they show |
| `WarehouseSolve.CanMoveClosed` | 2024/Day_15_Warehouse_Woes/day_15_warehouse_woes.cpp:267-297 | when the search succeeds, every recorded push pulls in the other half of its box and the push of the cell it moves into, unless that cell is free: the set is closed under what a move drags along |
| `WarehouseSolve.ShiftStep` | 2024/Day_15_Warehouse_Woes/day_15_warehouse_woes.cpp:306-308 | swapping one more push, taken after the push behind it, moves exactly its cell one row on |
| `WarehouseSolve.OrderPlan` | 2024/Day_15_Warehouse_Woes/day_15_warehouse_woes.cpp:264-265 | listing a closed set in comparator order puts every push before the pushes of the cells behind it, so no cell is swapped twice |
| `WarehouseSolve.SwapsShift` | 2024/Day_15_Warehouse_Woes/day_15_warehouse_woes.cpp:306-309 | the swaps in set order are defined and move every recorded cell one row on, leaving the others |
| `WarehouseSolve.SwapsTally` | 2024/Day_15_Warehouse_Woes/day_15_warehouse_woes.cpp:306-309 | swaps keep the count of every character |
| `WarehouseSolve.ShiftWhole` | 2024/Day_15_Warehouse_Woes/day_15_warehouse_woes.cpp:306-309 | moving a closed set of pushes that includes the robot's own cell keeps every box whole and the robot alone, one row on |
| `WarehouseSolve.RobotShift` | 2024/Day_15_Warehouse_Woes/day_15_warehouse_woes.cpp:306-312 | after the boxes move, writing the robot ahead and freeing its cell leaves a well-formed part 2 warehouse with the same number of boxes |
| `WarehouseSolve.VerticalPush` | 2024/Day_15_Warehouse_Woes/day_15_warehouse_woes.cpp:303-312 | the swaps of a successful search and the two robot writes are defined and give a well-formed part 2 warehouse with the same number of boxes |
| `WarehouseSolve.MoveRobotVerticallyWhole` | 2024/Day_15_Warehouse_Woes/day_15_warehouse_woes.cpp:299-314 | a vertical move keeps the part 2 warehouse well formed, boxes whole, and the number of boxes |
| `WarehouseSolve.FencedWalls` | 2024/Day_15_Warehouse_Woes/day_15_warehouse_woes.cpp:267-297 | a warehouse with the walls of a fenced one is fenced |
| `WarehouseSolve.ScaleFenced` | 2024/Day_15_Warehouse_Woes/day_15_warehouse_woes.cpp:232-248 | widening a fenced warehouse gives a fenced one |
| `WarehouseSolve.Part2Keeps` | 2024/Day_15_Warehouse_Woes/day_15_warehouse_woes.cpp:351-358 | part 2 from a well-formed fenced warehouse is defined for every list of moves and keeps whole boxes, their number, the walls and the fence |
| `WarehouseSolve.Day15Part2Defined` | 2024/Day_15_Warehouse_Woes/day_15_warehouse_woes.cpp:368-372 | part 2's answer is defined and is the GPS sum of the left halves of a well-formed warehouse with one box per part 1 box and the widened walls |
| `WarehouseSolve.Day15Part1` | 2024/Day_15_Warehouse_Woes/day_15_warehouse_woes.cpp:363-366 | part 1 has an answer on every well-formed warehouse |
| `WarehouseSolve.Solve1Defined` | 2024/Day_15_Warehouse_Woes/day_15_warehouse_woes.cpp:363-366 | on a well-formed warehouse the robot is found and every move list runs to the end |
| `WarehouseSolve.Day15Part2` | 2024/Day_15_Warehouse_Woes/day_15_warehouse_woes.cpp:368-372 | part 2 has an answer on every well-formed fenced warehouse |
| `WarehouseSolve.Solve2Defined` | 2024/Day_15_Warehouse_Woes/day_15_warehouse_woes.cpp:368-372 | on the widened well-formed fenced warehouse the robot is found and every move list runs to the end |
| `WarehouseWoes.TallyRow` | 2024/Day_15_Warehouse_Woes/day_15_warehouse_woes.cpp:325-333 | replacing a row by a rearrangement of it keeps the count of every character |
| `WarehouseWoes.ShiftedWhole` | 2024/Day_15_Warehouse_Woes/day_15_warehouse_woes.cpp:325-333 | shifting a row of whole boxes keeps the boxes whole and the robot alone, one cell on |
| `WarehouseWoes.RowWhole` | 2024/Day_15_Warehouse_Woes/day_15_warehouse_woes.cpp:318-337 | putting in a row of whole boxes with the robot at some column gives a well-formed part 2 warehouse with the robot there |
| `WarehouseWoes.MoveRobotHorizontallyWhole` | 2024/Day_15_Warehouse_Woes/day_15_warehouse_woes.cpp:318-337 | a horizontal move keeps the part 2 warehouse well formed, boxes whole, the number of boxes and the walls |
| `BridgeRepair.AccumulateValidTestValuesAsWritten` | 2024/Day_7_Bridge_Repair/day_7_bridge_repair.cpp:164-176 | the loop as written: the sum of the test values of the lines the as-written search accepts |
| `BridgeRepair.Day7Part1AsWritten` | 2024/Day_7_Bridge_Repair/day_7_bridge_repair.cpp:188 | the as-written total with plus and times |
| `BridgeRepair.Day7Part2AsWritten` | 2024/Day_7_Bridge_Repair/day_7_bridge_repair.cpp:189 | the as-written total with plus, times and concatenation |
| `BridgeRepair.TotalsDiffer` | 2024/Day_7_Bridge_Repair/day_7_bridge_repair.cpp:133-176 | on the line 3: 1 2 the as-written total is 0 while the corrected total is 3 |
| `BridgeRepair.ShiftFactor` | 2024/Day_7_Bridge_Repair/day_7_bridge_repair.cpp:96-106 | the factor a concatenation multiplies by is at least one |
| `BinaryDiagnostic.ColumnUniform` | 2021/Day_3_Binary_Diagnostic/bin_diagnose.cpp:146-154 | all numbers share the bit of a column exactly when the column lacks one of the two bit values |
| `BinaryDiagnostic.NarrowStep` | 2021/Day_3_Binary_Diagnostic/bin_diagnose.cpp:121-136 | while two or more numbers agree on a path, one more round is possible, keeps those with the chosen bit and (for oxygen and the corrected scrubber rule) keeps at least one |
| `BinaryDiagnostic.SurvivorAtEnd` | 2021/Day_3_Binary_Diagnostic/bin_diagnose.cpp:121-157 | when a single number agrees with a path, it is the survivor of the filtering |
| `BinaryDiagnostic.PathExtend` | 2021/Day_3_Binary_Diagnostic/bin_diagnose.cpp:125-136 | a path extended by the bit its round chooses is still a path of that rule |
| `BinaryDiagnostic.Keep` | 2021/Day_3_Binary_Diagnostic/bin_diagnose.cpp:132-135 | the numbers kept all come from the list and carry the chosen bit |
| `BinaryDiagnostic.LifeSupportRatingAsWritten` | 2021/Day_3_Binary_Diagnostic/bin_diagnose.cpp:117-120 | the product of the two survivors' values, and None whenever the scrubber rounds as written empty the list |
| `DiskFragmenter.LastFileRunUnique` | 2024/Day_9_Disk_Fragmenter/day_9_disk_fragmenter.cpp:130-149 | the last file run at or before an index is unique |
| `DiskFragmenter.LastRun` | 2024/Day_9_Disk_Fragmenter/day_9_disk_fragmenter.cpp:130-149 | the last file run at or before an index, chosen as a reference |
| `DiskFragmenter.FirstFit` | 2024/Day_9_Disk_Fragmenter/day_9_disk_fragmenter.cpp:160-175 | the leftmost slice of n free blocks in the range, or -1 exactly when none exists |
| `DiskFragmenter.CompactStep` | 2024/Day_9_Disk_Fragmenter/day_9_disk_fragmenter.cpp:181-192 | one reference step of compaction keeps the size and blocks of the disk and moves the index left |
| `DiskFragmenter.CompactPermutes` | 2024/Day_9_Disk_Fragmenter/day_9_disk_fragmenter.cpp:181-193 | compaction only moves blocks: the disk keeps its size and its multiset of blocks |
| `DiskFragmenter.FitIsTarget` | 2024/Day_9_Disk_Fragmenter/day_9_disk_fragmenter.cpp:186-187 | the slice the program's search finds is the reference's first fit |
| `DiskFragmenter.StepIsMove` | 2024/Day_9_Disk_Fragmenter/day_9_disk_fragmenter.cpp:183-192 | one pass of the loop, with the found run and target, is the reference compaction step |
| `DiskFragmenter.MoveFileCompacts` | 2024/Day_9_Disk_Fragmenter/day_9_disk_fragmenter.cpp:183-192 | after one pass the rest of the compaction continues from the disk it left |
| `DiskFragmenter.MoveFiles` | 2024/Day_9_Disk_Fragmenter/day_9_disk_fragmenter.cpp:181-193 | the loop gives the reference compaction of the whole disk |
| `DiskFragmenter.CompactDone` | 2024/Day_9_Disk_Fragmenter/day_9_disk_fragmenter.cpp:181 | with no index left the disk is as it is |
| `DiskFragmenter.SwapRanges` | 2024/Day_9_Disk_Fragmenter/day_9_disk_fragmenter.cpp:189 | exchanging two ranges keeps the disk's length |
| `DiskFragmenter.NoFitBefore` | 2024/Day_9_Disk_Fragmenter/day_9_disk_fragmenter.cpp:164-173 | skipping a free run too small for the file passes over no slice that would fit |
| `DiskFragmenter.PartitionDone` | 2024/Day_9_Disk_Fragmenter/day_9_disk_fragmenter.cpp:121-128 | once the two scan indices meet, the disk is in part 1 layout |
| `CathodeRayTube.TestAndUpdateCycleToProcess` | 2022/Day10_Cathode-RayTube/cathode_ray_tube.cpp:9-17 | a cycle is sampled exactly when it is the one due, after which the next one due is 40 cycles on |
| `Restroom.Move` | 2024/Day_14_Restroom_Redoubt/day_14_restroom_redoubt.cpp:136-145 | a robot moved any number of seconds is on the grid with its velocity unchanged |
| `GiantSquid.MarkRow` | 2021/Day_4_Giant_Squid/squid.cpp:61-67 | `replace` crosses out exactly the entries equal to the number and leaves the others |
| `GiantSquid.MarkAll` | 2021/Day_4_Giant_Squid/squid.cpp:94-96 | every board after a run of draws is that board with each drawn number crossed out |
| `GiantSquid.FindWinner` | 2021/Day_4_Giant_Squid/squid.cpp:97 | `find_if` gives the first board that has won, or the end when none has |
| `GiantSquid.RemoveWinners` | 2021/Day_4_Giant_Squid/squid.cpp:116-117 | `remove_if` then `erase` leave exactly the boards that have not won, in order |
| `SupplyStack.Stacks` | 2022/Day5_SupplyStack/supply_stack.cpp:51-66 | one stack per column of the drawing |
| `SupplyStack.TopCrates` | 2022/Day5_SupplyStack/supply_stack.cpp:118-122 | the loop over the stacks gives, left to right, the top crate of each |
| `SupplyStack.Tops` | 2022/Day5_SupplyStack/supply_stack.cpp:118-122 | one character per stack, the crate on its top |
| `SevenSegment.SortChars` | 2021/Day_8_Seven_Segment/seven_segment.cpp:77-78 | `std::sort` gives an ascending rearrangement of the string |
| `SevenSegment.InsertChar` | 2021/Day_8_Seven_Segment/seven_segment.cpp:77-78 | inserting into a sorted string keeps it sorted and adds exactly the character |
| `SevenSegment.FindLength` | 2021/Day_8_Seven_Segment/seven_segment.cpp:126-130 | `find_if` on the size gives the first pattern of that many wires, or the end |
| `SevenSegment.Erase` | 2021/Day_8_Seven_Segment/seven_segment.cpp:153 | `erase` removes the one element and shifts the rest down |
| `PassagePathing.BigPairUnbounded` | 2021/Day_12_Passage_Pathing/passage_pathing.cpp:95-112 | with two big caves joined by a passage, part 1 admits walks to end of every length, so the search has no finite count to return |
| `PassagePathing.NeighbourStep2` | 2021/Day_12_Passage_Pathing/passage_pathing.cpp:155-159 | one pass of the neighbour loop adds the part 2 walks through that neighbour, none for `start`, and leaves the counts as they were |

## Left out

- Reading input files, `main`, and printing are not modelled. Each module starts from the lines, numbers or grid already read, and the parts' answers are returned, not printed.
- 2024/Day_3_Mull_It_Over/day_3_mull_it_over.cpp, 2022/Day11_MonkeyInTheMiddle/monkey_in_middle.cpp and the older copy 2021/Day-16 Packet Decoder/packet_decoder.cpp are not part of this model. Day 3 Mull It Over is regular-expression matching of `mul(x,y)` with `std::regex`, which this model does not cover. Day 11 Monkey in the Middle holds only an unfinished reader and an empty `main`, with no puzzle logic. "Day-16 Packet Decoder" is an older copy of the modelled 2021/Day_16_Packet_Decoder/packet_decoder.cpp.
- PlutonianPebbles.DigitCount: the program counts digits as `floor(log10(stone)) + 1` on a `double`. The model takes the exact digit count. The two agree for stones below 10^14, where `log10` of a double cannot round up to the next integer.
- PlutonianPebbles.SplitNumberParts: the program computes the divisor as `static_cast<int>(pow(10, half))`. The model uses the exact power of ten, which agrees while half the digit count is at most 9 (`int` range), that is for stones below 10^18.
- PlutonianPebbles.RuleCases: stones are `size_t`, so `stone * 2024` wraps modulo 2^64. The counts per stone are `long long`, and a count past 2^63 - 1 is signed overflow, which is undefined behaviour rather than a wrap. The model is exact while every stone stays below 2^64 / 2024 and every count below 2^63.
- PlutonianPebbles.CountStonesAfterNIterations: the total is a `size_t` sum. It is exact while the number of stones stays below 2^64.
- BridgeRepair.EvaluateExpression: the running value and the test value are `size_t`, so sums, products and concatenations wrap modulo 2^64. The model is exact while every intermediate value stays below 2^64.
- BridgeRepair.Search: the loop bound is `int i < pow(N, k - 1)` compared as a `double`. The model uses the exact power, which agrees while N^(k-1) is below 2^31, so that `i` cannot overflow.
- BridgeRepair.AccumulateValidTestValues: the sum is `size_t`. It is exact while the total stays below 2^64, and likewise for BridgeRepair.AccumulateValidTestValuesAsWritten.
- BridgeRepair.CanEquationBeSolved: requires at least one number per line and at least two operators, as every input line and both calls have. On a line without numbers, `string(size(numbers) - 1, '\0')` (day_7_bridge_repair.cpp:136) wraps to a huge length and throws `length_error` before `numbers[0]` is read.
- PacketDecoder.Eval: sums, products, minima and maxima are computed in `size_t` and wrap modulo 2^64. The model uses unbounded integers, so it is exact while every intermediate value stays below 2^64.
- PacketDecoder.ConvertLiteralGroupsOfLiteralGroups: the program converts a literal with `from_chars` into a `long long` that starts at 0 (packet_decoder.cpp:210-215, 259). A literal of more than 63 bits makes `from_chars` report `result_out_of_range` and leave the value at 0, so the program returns 0 where the model returns the full value. The model is exact for literals of at most 63 bits.
- PacketDecoder.VersionSumIsSumOfVersions: the version sum is `size_t` and exact while below 2^64, which any packet with fewer than 2^61 sub-packets satisfies.
- ClawContraption.MinimumCostFindsSolution: the program computes the presses in `long long`. It is exact while the products `x2 * Y` and `y2 * X` stay below 2^63.
- ClawContraption.Day13: the program adds `3a + b` to a `size_t` sum, and its result is the pair converted to `size_t`. The model's integer sum equals the program's modulo 2^64. The two agree exactly while every counted press is non-negative and the total is below 2^64.
- ClawContraption.Day13: requires `AllSolvable`: a machine whose determinant is 0, or whose button B has `x == 0`, makes the program divide by zero.
- Chronospatial.Day17Part1: the program divides with `A / pow(2, B)` in `double` and converts back. The model's `Shr` and `Shift8` use exact integer division. They agree with the program while A is below 2^53, the range in which a `double` holds A exactly. The same holds for Chronospatial.Day17Part2.
- Chronospatial.Day17Part2: requires that the search leaves at least one candidate, because the program dereferences `min_element` of the final list, which is undefined when the list is empty.
- PassagePathing.TotalPathsPart1: requires `NoBigPair` (no passage joins two big caves). When two big caves are joined, the program's recursion never returns; see "## Findings". The same holds for PassagePathing.TotalPathsPart2, PassagePathing.CountPaths1, PassagePathing.CountPaths2, PassagePathing.NeighbourPaths1 and PassagePathing.NeighbourPaths2.
- PassagePathing.CountPaths1: the count is `size_t`; the model is exact while it stays below 2^64.
- PassagePathing.Walks1Exact: states which walks the search lists, not how often each is listed. A duplicated edge yields a walk twice, as in the program; that the list has no other repeats is not proved. The same holds for PassagePathing.Walks2Exact.
- DiskFragmenter.Day9Part1: `std::partition` leaves the order within each part unspecified. The model fixes the usual two-ended scan, which moves the last file block into the first free block (`FillGaps`). A library that orders the parts differently would give another checksum, and the model says nothing about such a library.
- DiskFragmenter.Day9Part2: requires that a non-empty map does not start with `0`. Otherwise there is no file at index 0, and the backward scan of `ReverseFindFileBlock` reads `disk_map[-1]`.
- DiskFragmenter.FindEmptyBlockIfSize: requires `size >= 1`, which holds at its only call, where a file run was found.
- DiskFragmenter.CalculateChecksum: the checksum is `size_t`; it is exact while below 2^64.
- LanternFish.FishCount: requires a non-negative timer, as every puzzle timer (0 to 8) is. Negative timers are not modelled, and neither is the recurrence's `size_t` wrap past 2^64; the same holds for LanternFish.CalculateFishCountAfterNDays.
- BinaryDiagnostic.Rate: requires `Report`: at least one number (the width is read from the first), one common width, and no number twice. Two equal numbers are never separated, and the program's filtering then reads past the last column. The same requirement holds for BinaryDiagnostic.O2GeneratorRating, BinaryDiagnostic.CO2ScrubberRating, BinaryDiagnostic.CO2ScrubberRatingAsWritten, BinaryDiagnostic.LifeSupportRating and BinaryDiagnostic.LifeSupportRatingAsWritten.
- BinaryDiagnostic.Rate: when the scrubber rounds empty the list, the program loops forever (`size != 1`). The model returns `None` there.
- BinaryDiagnostic.LifeSupportRating: the product is an `int` and is exact while it stays below 2^31.
- PrintQueue.Day5Part1: requires every update to be non-empty, because the middle page is read with `.at` and throws on an empty update. The same holds for PrintQueue.Day5Part2.
- SupplyStack.ComputeSolution: requires every stack to be non-empty at the end, because `top()` of an empty `std::stack` is undefined. It also requires every instruction to name existing stacks (`InRange`), because the program indexes `configuration_stacks[from - 1]` unchecked.
- SupplyStack.Tokenize: requires a drawing line of length `4k + 3`, the shape of every crate row of the input. On other lengths the last group of reads fails and the program pushes an uninitialised `char`.
- SonarSweep.CountValueIncrease: requires at least one depth, because the program reads the first value before the loop. SonarSweep.Part2 requires three, for the first window.
- CalorieCounting.MostCaloriesIsMaximum: requires at least one elf, and CalorieCounting.TopThreeCaloriesAreLargest requires three, because the program reads the first one and the first three entries of the sorted totals.
- CathodeRayTube.RunMatchesTrace: instructions are `noop` and `addx v` only. Any other line is not modelled, and neither is the `int` overflow of the sum.
- LinenLayout.Day19Part2: requires every pattern to be non-empty. An empty pattern makes the memoised recursion call itself at the same position forever.
- LinenLayout.CountAllPossibleWays: the number of ways is `size_t`; the model is exact while it stays below 2^64.
- Polymerization.ApplyPolymerInsertionRules: requires a non-empty template. On an empty one, `size(template_str) - 1` (day14_extended_polymerization.cpp:56) wraps to the largest `size_t`, so the pair loop reads past the end.
- Polymerization.ApplyPolymerInsertionRules: a pair with no rule throws from `.at` in the program; the model returns `None`.
- CeresSearch.Day4Part1: requires a rectangular grid (`Rectangular`). The program bounds a column by the width of the start row, not of the row it reads (day_4_ceres_search.cpp:63, 131-132), so on a ragged grid it reads a shorter row out of range. The same holds for CeresSearch.Day4Part2.
- SupplyStack.Stacks: requires a rectangular drawing (`Rectangular`). The program reads every row up to the width of the first (supply_stack.cpp:55), so a shorter row is read out of range.
- Trebuchet.FirstDigitPos: requires a line with a digit (`HasDigit`). Without one, the search returns `npos` and the program reads `line[npos]` (trebuchet.cpp:15-18). The same holds for Trebuchet.LastDigitPos and Trebuchet.LineValue.
- ChitonSearch.Solve: requires every line to be digits (`AllDigits`). The program takes `ch - '0'` of any character (day_15_chiton.cpp:176), and a non-digit gives a level outside 0 to 9.
- RamRun.Day18Part1: requires `n <= |ps|`. With fewer positions, `for_each_n` runs past the end of the list (day_18_ram_run.cpp:70, 88).
- RamRun.FindMinimumDistancesBFS: reads the popped node's position and cost from a copy. The program binds them by reference to `queue.front()` and then pops (day_18_ram_run.cpp:115-116), so every later read of them uses a destroyed element, which is undefined behaviour. The model gives the evidently intended reading.
- Polymerization.ParseRule: requires a line of at least two characters, because the program reads `str[0]` and `str[1]` (day14_extended_polymerization.cpp:39).
- Restroom.ProcessString: requires `WellFormed`: two space-separated tokens, each holding a comma. On other lines `tokens[1]`, `position[1]` or `velocity[1]` is read out of range (day_14_restroom_redoubt.cpp:56-64).
- PrintQueue.Day5Part2: the program reorders an update with `nth_element` and the rule comparator. The model sorts the whole update by insertion (`SortBy`). The two agree on the middle page only when the rules order the update's pages strictly and totally (`ValidOrderUnique`); otherwise `nth_element` may pick a different page.
- CalorieCounting.ElfTotals: models a file whose last line ends in a newline, so the final failed read closes the last elf. When the last line has no newline, that `getline` sets end-of-file, the loop stops, and the program drops the last elf.
- Venture.ReadIntegers: the program reads each number with `from_chars` into an `int`. A number of 2^31 or more is out of range, and `from_chars` then leaves the previous value in place. The model reads numbers exactly, so it agrees for numbers below 2^31.
- GardenGroups.FindRegions: requires every row to be at least as long as the number of rows (`Wide`). The visited table is `|g|` by `|g|`, so a shorter row is read out of range; a square garden qualifies. The same holds for GardenGroups.ExploreRegion, GardenGroups.Day12Part1 and GardenGroups.Day12Part2.
- GardenGroups.Day12Part2: only the bound "at most four times the sum of squared areas" and the corner counts of small shapes are proved. That the corner count equals the number of straight sides of every region is not proved.
- ChitonSearch.MinimumCostPath: requires non-negative risk levels, which Dijkstra's algorithm needs and digits `0`-`9` give.
- ChitonSearch.LowestTotalRisk: requires a complete rectangular field, a bound on the levels, and a total below the program's sentinel distance `std::numeric_limits<long long>::max()` (day_15_chiton.cpp:212). Real inputs meet these because levels are 1 to 9.
- HoofIt.Day10Solution: requires that no row is shorter than the first, because every row is read up to the first row's width.
- RamRun.Day18Part1: requires non-negative coordinates, because a negative byte position would index the grid out of range. The same holds for RamRun.Day18Part2.
- Resonant.Day8Part1: requires at least one row, because the width is read from the first. The same holds for Resonant.CalculateAntinodesPartTwo.
- Restroom.Day14Part1: requires at least one row and one column, because the program takes `% rows` and `% cols` and reads `grid[0]`. The same holds for Restroom.Day14Part2 and Restroom.ExecuteIterations.
- Treetop.CountNumberOfVisibleTrees: requires a rectangular grid with at least one row and column (`Shape`). A single row or column of length three or more makes the program's inward scans start past the end.
- CeresSearch.Day4Part1: requires that no cell holds `'\0'`, which would match the terminator of the word's literal.
- Venture.Day5: requires a non-empty list of non-negative numbers whose length is a multiple of four. That is the shape of the input's `x1,y1 -> x2,y2` lines, which the program reads four numbers at a time.
- GiantSquid.PlayBingo: requires every row of a board to be at least as long as the board has rows (`AllFit`), which every 5-by-5 board `Read_N_SizeGrid` reads satisfies; the column test reads down as many rows as the board has. The same holds for GiantSquid.LastBoardToWin.
- RockPaperScissors.GetSingleMoveResult: requires both characters to be moves (`IsMove`). For any other character the program's function falls off its end without returning, which is undefined behaviour. The same holds for RockPaperScissors.MoveForRoundTo, RockPaperScissors.TotalScore1 and RockPaperScissors.TotalScore2, which require the characters they pass on to be moves.
- TuningTrouble.GetMarkerPosition: requires `n <= |data|`; otherwise `cend(data) - n` points before the start.
- WarehouseSolve.MoveRobotVerticallyKeeps: requires `Fenced` (a rectangular grid whose first and last rows are walls). That is the shape of every puzzle input, and it keeps the vertical search inside the grid. The same holds for WarehouseSolve.MoveRobotVerticallyWhole, WarehouseSolve.Part2Keeps and WarehouseSolve.Day15Part2Defined.

## Findings

| source | as written | input that shows it | evidently intended | confidence | as-written member | corrected member |
|---|---|---|---|---|---|---|
| 2022/Day6_TuningTrouble/tuning_trouble.cpp:21-33 | the window loop stops one window before the end; a marker it does not find gives `size(data)`, to which the caller adds `n` | `abcd` with `n = 4`: the only window is the whole stream, all distinct, yet 8 is reported | the end of the first window of `n` distinct characters, 4 here | not executed | `TuningTrouble.MarkerSkipsLastWindow` | `TuningTrouble.MarkerPositionIsFirstMarker` |
| 2024/Day_11_Plutonian_Pebbles/day_11_lutonian_pebbles.cpp:113-116 | the initial table sets each stone's count to 1, so stones that repeat are counted once | the row `1 1`, no blinks: the table holds one stone | one count per stone read, 2 here | not executed | `PlutonianPebbles.DuplicateStonesCollapse` | `PlutonianPebbles.InitialConfigurationCounts` |
| 2021/Day_5_venture/venture.cpp:31-43 | after the last number, `find_if` finds no digit and `from_chars` on the empty range leaves the last value in place, so it is read again | a line `n` followed by a newline reads as `n, n` | each number read once: `n` | not executed | `Venture.TrailingNewlineRepeats` | `Venture.IntendedCons` |
| 2021/Day_5_venture/venture.cpp:69-72 | the 45-degree test divides the two differences with integer division, so any line whose differences truncate to a quotient of 1 counts as diagonal | the line from `0,0` to `3,2`: 3 / 2 is 1 | only lines whose two differences have equal size | not executed | `Venture.IsDiagonalTooWide` | `Venture.DiagonalIntendedEnds` |
| 2024/Day_10_Hoof_It/day_10_hoof_it.cpp:82-84 | the column bound of a neighbour is the number of rows | the one-row map `0123456789`: no step right is allowed and the score is 0 | the row's width as the column bound, score 1 | not executed | `HoofIt.RowCountBoundMissesTrail` | `HoofIt.RowWidthAdmitsMap` |
| 2024/Day_7_Bridge_Repair/day_7_bridge_repair.cpp:135-146 | the operators are the base-N digits of a counter, but only the digits up to the counter's highest non-zero one are written; the positions above keep `'\0'`, which the evaluation takes as skipping the next number, and there the first operator is never tried | `3: 1 2` is missed (1 + 2 is 3), and `5: 5 7` is accepted (5 followed by the padding) | exactly the lines some choice of operators makes true | not executed | `BridgeRepair.MissedSolution` | `BridgeRepair.CanEquationBeSolved` |
| 2021/Day_3_Binary_Diagnostic/bin_diagnose.cpp:146-154 | the scrubber keeps the numbers with the less common bit even when every remaining number has the same bit, which drops them all | the report `10`, `11`: the first column is all 1, and the list runs empty | the puzzle's rule: keep the bit that is present when only one is, so `10` is kept | not executed | `BinaryDiagnostic.MinorityLosesEverything` | `BinaryDiagnostic.CO2ScrubberRating` |
| 2021/Day_12_Passage_Pathing/passage_pathing.cpp:95-112 | big caves are never marked visited, so two big caves joined by a passage are entered in turn without end | the caves `start-A`, `A-B`, `B-end` | a search that returns; the puzzle inputs never join two big caves | not executed | `PassagePathing.BigPairUnbounded` | `PassagePathing.TotalPathsPart1` |
